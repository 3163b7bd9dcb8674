/**
 Prefix-freeness of the codec, for every value whether or not it could be decoded: an encoding can be
 skipped without knowing what it encodes, so two encodings that begin the same byte string are equal.
 */
module CborPrefix {
  import opened Prelude
  import opened CborBytes
  import opened CborValue
  import opened CborParse
  import opened CborCanon
  import opened CborExact
  import opened CborRoundTrip

  /** The position after `todo` items, following heads only. */
  function Skip(b: Bytes, p: nat, todo: nat): Option<nat>
    decreases |b| - p
  {
    if todo == 0 then Some(p)
    else if p >= |b| then None
    else if b[p] / 32 == 7 then Skip(b, p + 1, todo - 1)
    else
      match Argument(b, p + 1, b[p] % 32)
      case Err(_) => None
      case Ok(Parsed(n, q)) => Skip(b, q + Payload(b[p] / 32, n), todo - 1 + Children(b[p] / 32, n))
  }

  /** Bytes of content after a head. */
  function Payload(major: nat, n: nat): nat {
    if major == 2 || major == 3 then n else 0
  }

  /** Items of content after a head. */
  function Children(major: nat, n: nat): nat {
    if major == 4 then n else if major == 5 then 2 * n else 0
  }

  /** One head, skipped. */
  lemma SkipHead(b: Bytes, p: nat, major: nat, n: U64, t: nat)
    requires major < 7 && At(b, p, Head(major, n))
    ensures Skip(b, p, t + 1) == Skip(b, p + |Head(major, n)| + Payload(major, n), t + Children(major, n))
  {
    HeadRead(b, p, major, n);
  }

  /** An encoding is skipped as exactly one item. */
  lemma {:induction false} SkipValue(v: Cv, b: Bytes, p: nat, t: nat)
    requires Fits(v) && At(b, p, Encode(v))
    ensures Skip(b, p, t + 1) == Skip(b, p + |Encode(v)|, t)
    decreases v, 1, 0
  {
    hide Encode, Skip;
    if v.Array? {
      SkipArray(v, b, p, t);
    } else if IsMap(v) {
      SkipMap(v, b, p, t);
    } else {
      SkipLeaf(v, b, p, t);
    }
  }

  lemma SkipLeaf(v: Cv, b: Bytes, p: nat, t: nat)
    requires !v.Array? && !IsMap(v) && Fits(v) && At(b, p, Encode(v))
    ensures Skip(b, p, t + 1) == Skip(b, p + |Encode(v)|, t)
  {
    hide Head, Argument, ValidUtf8;
    match v {
      case Uint(n) =>
        SkipHead(b, p, 0, n, t);
      case Bstr(x) =>
        AtConcat(b, p, Head(2, |x|), x);
        SkipHead(b, p, 2, |x|, t);
      case Text(x) =>
        AtConcat(b, p, Head(3, |x|), x);
        SkipHead(b, p, 3, |x|, t);
      case Bool(f) =>
        assert b[p] == b[p..p + 1][0];
    }
  }

  lemma {:induction false} SkipArray(v: Cv, b: Bytes, p: nat, t: nat)
    requires v.Array? && Fits(v) && At(b, p, Encode(v))
    ensures Skip(b, p, t + 1) == Skip(b, p + |Encode(v)|, t)
    decreases v, 0, |v.a| + 1
  {
    hide Head, Skip, EncodeItems;
    AtConcat(b, p, Head(4, |v.a|), EncodeItems(v, 0));
    SkipHead(b, p, 4, |v.a|, t);
    SkipItems(v, 0, b, p + |Head(4, |v.a|)|, t);
  }

  lemma {:induction false} SkipMap(v: Cv, b: Bytes, p: nat, t: nat)
    requires IsMap(v) && Fits(v) && At(b, p, Encode(v))
    ensures Skip(b, p, t + 1) == Skip(b, p + |Encode(v)|, t)
    decreases v, 0, Count(v) + 1
  {
    hide Head, Skip, EncodeEntries, OrderFrom;
    AtConcat(b, p, Head(5, Count(v)), EncodeEntries(v, Order(v)));
    SkipHead(b, p, 5, Count(v), t);
    SkipEntries(v, Order(v), b, p + |Head(5, Count(v))|, t);
  }

  lemma {:induction false} SkipItems(v: Cv, i: nat, b: Bytes, p: nat, t: nat)
    requires v.Array? && i <= |v.a| && Fits(v) && At(b, p, EncodeItems(v, i))
    ensures Skip(b, p, t + |v.a| - i) == Skip(b, p + |EncodeItems(v, i)|, t)
    decreases v, 0, |v.a| - i
  {
    hide Encode, Skip;
    if i < |v.a| {
      AtConcat(b, p, Encode(v.a[i]), EncodeItems(v, i + 1));
      SkipValue(v.a[i], b, p, t + |v.a| - i - 1);
      SkipItems(v, i + 1, b, p + |Encode(v.a[i])|, t);
    }
  }

  lemma {:induction false} SkipEntries(v: Cv, order: seq<nat>, b: Bytes, p: nat, t: nat)
    requires IsMap(v) && Fits(v) && forall j | 0 <= j < |order| :: order[j] < Count(v)
    requires At(b, p, EncodeEntries(v, order))
    ensures Skip(b, p, t + 2 * |order|) == Skip(b, p + |EncodeEntries(v, order)|, t)
    decreases v, 0, |order|
  {
    hide Encode, Skip, KeyBytes, KeyAt, ValAt;
    if order != [] {
      FitsMap(v, order[0]);
      var key, val, rest := Encode(KeyAt(v, order[0])), Encode(ValAt(v, order[0])), order[1..];
      AtConcat(b, p, key, val);
      AtConcat(b, p, key + val, EncodeEntries(v, rest));
      SkipKey(v, order[0], b, p, t + 2 * |rest| + 1);
      SkipValue(ValAt(v, order[0]), b, p + |key|, t + 2 * |rest|);
      SkipEntries(v, rest, b, p + |key| + |val|, t);
    }
  }

  lemma SkipKey(v: Cv, i: nat, b: Bytes, p: nat, t: nat)
    requires IsMap(v) && Fits(v) && i < Count(v) && At(b, p, Encode(KeyAt(v, i)))
    ensures Skip(b, p, t + 1) == Skip(b, p + |Encode(KeyAt(v, i))|, t)
  {
    hide Skip, Head;
    if v.Map? {
      SkipHead(b, p, 0, v.m[i].0, t);
    } else {
      var x := v.t[i].0;
      AtConcat(b, p, Head(3, |x|), x);
      SkipHead(b, p, 3, |x|, t);
    }
  }

  /** Prefix-freeness: where two encodings start the same bytes, they and the remainders agree. */
  lemma PrefixFree(v: Cv, w: Cv, x: Bytes, y: Bytes)
    requires Fits(v) && Fits(w)
    requires Encode(v) + x == Encode(w) + y
    ensures Encode(v) == Encode(w) && x == y
  {
    hide Encode, Skip;
    var b := Encode(v) + x;
    AtConcat(b, 0, Encode(v), x);
    AtConcat(b, 0, Encode(w), y);
    assert b[0..|b|] == b;
    SkipValue(v, b, 0, 0);
    SkipValue(w, b, 0, 0);
    SkipDone(b, |Encode(v)|);
    SkipDone(b, |Encode(w)|);
    assert x == b[|Encode(v)|..] && y == b[|Encode(w)|..];
  }

  lemma SkipDone(b: Bytes, p: nat)
    ensures Skip(b, p, 0) == Some(p)
  {
  }

  // ---------------------------------------------------------------- injectivity

  lemma {:induction false} EncodeAllPointwise(a: seq<Cv>, c: seq<Cv>)
    requires |a| == |c| && EncodeAll(a) == EncodeAll(c)
    requires forall i | 0 <= i < |a| :: Fits(a[i]) && Fits(c[i])
    ensures forall i | 0 <= i < |a| :: Encode(a[i]) == Encode(c[i])
  {
    hide Encode, Fits;
    if a != [] {
      PrefixFree(a[0], c[0], EncodeAll(a[1..]), EncodeAll(c[1..]));
      EncodeAllPointwise(a[1..], c[1..]);
      forall i | 0 < i < |a|
        ensures Encode(a[i]) == Encode(c[i])
      {
        assert a[i] == a[1..][i - 1] && c[i] == c[1..][i - 1];
      }
    }
  }

  lemma {:induction false} EncodePairsPointwise(es: seq<(Cv, Cv)>, fs: seq<(Cv, Cv)>)
    requires |es| == |fs| && EncodePairs(es) == EncodePairs(fs)
    requires forall i | 0 <= i < |es| :: Fits(es[i].0) && Fits(es[i].1) && Fits(fs[i].0) && Fits(fs[i].1)
    ensures forall i | 0 <= i < |es| :: Encode(es[i].0) == Encode(fs[i].0) && Encode(es[i].1) == Encode(fs[i].1)
  {
    hide Encode, Fits;
    if es != [] {
      var x, y := EncodePairs(es[1..]), EncodePairs(fs[1..]);
      assert Encode(es[0].0) + Encode(es[0].1) + x == Encode(es[0].0) + (Encode(es[0].1) + x);
      assert Encode(fs[0].0) + Encode(fs[0].1) + y == Encode(fs[0].0) + (Encode(fs[0].1) + y);
      PrefixFree(es[0].0, fs[0].0, Encode(es[0].1) + x, Encode(fs[0].1) + y);
      PrefixFree(es[0].1, fs[0].1, x, y);
      EncodePairsPointwise(es[1..], fs[1..]);
      forall i | 0 < i < |es|
        ensures Encode(es[i].0) == Encode(fs[i].0) && Encode(es[i].1) == Encode(fs[i].1)
      {
        assert es[i] == es[1..][i - 1] && fs[i] == fs[1..][i - 1];
      }
    }
  }

  function Major(v: Cv): nat {
    match v
    case Uint(_) => 0
    case Bstr(_) => 2
    case Text(_) => 3
    case Bool(_) => 7
    case Array(_) => 4
    case Map(_) => 5
    case TextMap(_) => 5
  }

  lemma MajorRead(v: Cv)
    ensures |Encode(v)| > 0 && Encode(v)[0] / 32 == Major(v)
  {
  }

  /** The encoding determines the value up to its normal form: map order and the kind of empty maps. */
  lemma {:induction false} EncodeInjective(v: Cv, w: Cv)
    requires Fits(v) && Fits(w) && Encode(v) == Encode(w)
    ensures Normal(v) == Normal(w)
    decreases v, 1
  {
    hide Encode;
    MajorRead(v);
    MajorRead(w);
    if v.Array? {
      ArrayInjective(v, w);
    } else if IsMap(v) {
      MapInjective(v, w);
    } else {
      LeafInjective(v, w);
    }
  }

  /** Values without parts are determined outright. */
  lemma LeafInjective(v: Cv, w: Cv)
    requires !v.Array? && !IsMap(v) && Major(v) == Major(w)
    requires Fits(v) && Fits(w) && Encode(v) == Encode(w)
    ensures v == w
  {
    var b := Encode(v);
    assert b[0..|b|] == b;
    LeafRoundTrip(v, b, 0, 0);
    LeafRoundTrip(w, b, 0, 0);
  }

  lemma {:induction false} ArrayInjective(v: Cv, w: Cv)
    requires v.Array? && w.Array?
    requires Fits(v) && Fits(w) && Encode(v) == Encode(w)
    ensures Normal(v) == Normal(w)
    decreases v, 0
  {
    EncodeArray(v.a);
    EncodeArray(w.a);
    HeadInjective(4, |v.a|, |w.a|, EncodeAll(v.a), EncodeAll(w.a));
    EncodeAllPointwise(v.a, w.a);
    forall i | 0 <= i < |v.a|
      ensures Normal(v.a[i]) == Normal(w.a[i])
    {
      EncodeInjective(v.a[i], w.a[i]);
    }
    assert Normal(v).a == Normal(w).a;
  }

  lemma {:induction false} MapInjective(v: Cv, w: Cv)
    requires IsMap(v) && IsMap(w)
    requires Fits(v) && Fits(w) && Encode(v) == Encode(w)
    ensures Normal(v) == Normal(w)
    decreases v, 0
  {
    hide Encode, KeyAt, ValAt, OrderFrom, KeyBytes, MapOf, Fits;
    var o, u := Order(v), Order(w);
    MapPartsFit(v);
    MapPartsFit(w);
    EncodeMap(v);
    EncodeMap(w);
    var es, fs := Arranged(v, o), Arranged(w, u);
    HeadInjective(5, Count(v), Count(w), EncodePairs(es), EncodePairs(fs));
    EncodePairsPointwise(es, fs);
    forall j | 0 <= j < |o|
      ensures NormalEntries(v)[j] == NormalEntries(w)[j]
    {
      assert Encode(es[j].0) == Encode(fs[j].0) && Encode(es[j].1) == Encode(fs[j].1);
      KeysEqual(v, o[j], w, u[j]);
      EncodeInjective(ValAt(v, o[j]), ValAt(w, u[j]));
    }
    assert NormalEntries(v) == NormalEntries(w);
  }

  lemma MapPartsFit(v: Cv)
    requires IsMap(v) && Fits(v)
    ensures Count(v) <= U64_MAX
    ensures forall i | 0 <= i < Count(v) :: Fits(KeyAt(v, i)) && Fits(ValAt(v, i))
  {
    forall i | 0 <= i < Count(v)
      ensures Fits(KeyAt(v, i)) && Fits(ValAt(v, i))
    {
      FitsMap(v, i);
    }
  }

  lemma KeysEqual(v: Cv, i: nat, w: Cv, j: nat)
    requires IsMap(v) && IsMap(w) && Fits(v) && Fits(w) && i < Count(v) && j < Count(w)
    requires Encode(KeyAt(v, i)) == Encode(KeyAt(w, j))
    ensures KeyAt(v, i) == KeyAt(w, j)
  {
    FitsMap(v, i);
    FitsMap(w, j);
    MajorRead(KeyAt(v, i));
    MajorRead(KeyAt(w, j));
    LeafInjective(KeyAt(v, i), KeyAt(w, j));
  }

  // ---------------------------------------------------------------- the normal form on the wire

  lemma {:induction false} EncodeAllSame(a: seq<Cv>, c: seq<Cv>)
    requires |a| == |c| && forall i | 0 <= i < |a| :: Encode(a[i]) == Encode(c[i])
    ensures EncodeAll(a) == EncodeAll(c)
  {
    hide Encode;
    if a != [] {
      EncodeAllSame(a[1..], c[1..]);
    }
  }

  lemma {:induction false} EncodePairsSame(es: seq<(Cv, Cv)>, fs: seq<(Cv, Cv)>)
    requires |es| == |fs|
    requires forall i | 0 <= i < |es| :: es[i].0 == fs[i].0 && Encode(es[i].1) == Encode(fs[i].1)
    ensures EncodePairs(es) == EncodePairs(fs)
  {
    hide Encode;
    if es != [] {
      EncodePairsSame(es[1..], fs[1..]);
    }
  }

  /** The entries of a normal form are in wire order, keys repeated or not. */
  lemma NormalKeysInOrder(v: Cv)
    requires IsMap(v)
    ensures NonDescending(Keys(MapOf(NormalEntries(v))))
  {
    hide Lt, Encode, Normal, KeyBytes, KeyAt, ValAt, OrderFrom, MapOf;
    var order, es := Order(v), NormalEntries(v);
    MapKeys(es);
    OrderPlaces(v);
    forall j | 0 <= j < |order|
      ensures KeyEncodings(es)[j] == Keys(v)[order[j]]
    {
      KeyBytesInjective(v, order[j], order[j]);
    }
    forall i, j | 0 <= i < j < |order|
      ensures !Lt(KeyEncodings(es)[j], KeyEncodings(es)[i])
    {
      assert !Lt(Keys(v)[order[j]], Keys(v)[order[i]]);
    }
  }

  /** Normalising changes no byte of the encoding, whether or not the value could be decoded. */
  lemma {:induction false} EncodeNormal(v: Cv)
    ensures Encode(Normal(v)) == Encode(v)
    decreases v, 1
  {
    if v.Array? {
      hide Encode;
      var a := Normal(v).a;
      forall i | 0 <= i < |v.a|
        ensures Encode(a[i]) == Encode(v.a[i])
      {
        EncodeNormal(v.a[i]);
      }
      EncodeAllSame(a, v.a);
      EncodeArray(a);
      EncodeArray(v.a);
    } else if IsMap(v) {
      EncodeNormalMap(v);
    }
  }

  /** Two values share an encoding exactly if they share a normal form. */
  lemma EncodeIff(v: Cv, w: Cv)
    requires Fits(v) && Fits(w)
    ensures Encode(v) == Encode(w) <==> Normal(v) == Normal(w)
  {
    hide Encode, Normal;
    EncodeNormal(v);
    EncodeNormal(w);
    if Encode(v) == Encode(w) {
      EncodeInjective(v, w);
    }
  }

  lemma {:induction false} EncodeNormalMap(v: Cv)
    requires IsMap(v)
    ensures Encode(Normal(v)) == Encode(v)
    decreases v, 0
  {
    hide Encode, KeyAt, OrderFrom, MapOf, Keys;
    var order, es := Order(v), NormalEntries(v);
    NormalKeysInOrder(v);
    EncodeAscending(es);
    EncodeMap(v);
    forall j | 0 <= j < |order|
      ensures Encode(es[j].1) == Encode(ValAt(v, order[j]))
    {
      EncodeNormal(ValAt(v, order[j]));
    }
    EncodePairsSame(es, Arranged(v, order));
  }
}
