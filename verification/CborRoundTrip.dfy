/**
 Encoder round trip: which values survive encoding and decoding, and as what; with exactness, the
 decoder is characterised completely.
 */
module CborRoundTrip {
  import opened Prelude
  import opened CborBytes
  import opened CborValue
  import opened CborParse
  import opened CborCanon
  import opened CborExact

  // ---------------------------------------------------------------- wire order and distinct keys

  /** From position `k` on, every key in wire order is strictly above the one before it. */
  ghost predicate Chain(v: Cv, k: nat)
    requires IsMap(v)
  {
    var order := Order(v);
    forall j | k <= j < |order| && j > 0 :: Lt(KeyBytes(v, order[j - 1]), KeyBytes(v, order[j]))
  }

  /** A chain ascends over any distance. */
  lemma {:induction false} ChainAscends(v: Cv, x: nat, y: nat)
    requires IsMap(v) && Chain(v, 0) && x < y < Count(v)
    ensures Lt(KeyBytes(v, Order(v)[x]), KeyBytes(v, Order(v)[y]))
  {
    hide Lt, KeyBytes, OrderFrom;
    if x + 1 < y {
      ChainAscends(v, x, y - 1);
      LtTransitive(KeyBytes(v, Order(v)[x]), KeyBytes(v, Order(v)[y - 1]), KeyBytes(v, Order(v)[y]));
    }
  }

  /** Every index has exactly one place in the wire order. */
  lemma OrderPlaces(v: Cv)
    requires IsMap(v)
    ensures forall i | 0 <= i < Count(v) :: i in Order(v)
    ensures forall x, y | 0 <= x < y < Count(v) :: Order(v)[x] != Order(v)[y]
    ensures Ascending(Keys(v), Order(v))
  {
    hide OrderFrom, Lt, KeyBytes, Ascending, Stable;
    var order := Order(v);
    OrderFromSorted(Keys(v), 0);
    forall i | 0 <= i < Count(v)
      ensures i in order
    {
      assert multiset(order)[i] == 1;
    }
    forall x, y | 0 <= x < y < Count(v)
      ensures order[x] != order[y]
    {
      assert order == order[..y] + order[y..];
      assert multiset(order) == multiset(order[..y]) + multiset(order[y..]);
      assert order[x] in order[..y] && order[y] in order[y..];
      assert multiset(order)[order[x]] == 1;
    }
  }

  /** The place of index `i` in the wire order. */
  lemma PlaceOf(v: Cv, i: nat) returns (x: nat)
    requires IsMap(v) && i < Count(v)
    ensures x < Count(v) && Order(v)[x] == i
  {
    OrderPlaces(v);
    assert i in Order(v);
    x :| 0 <= x < |Order(v)| && Order(v)[x] == i;
  }

  /** Distinct keys ascend strictly in wire order. */
  lemma DistinctChains(v: Cv)
    requires IsMap(v) && Fits(v) && DistinctKeys(v)
    ensures Chain(v, 0)
  {
    hide Lt, OrderFrom, KeyBytes, KeyAt;
    OrderPlaces(v);
    var order := Order(v);
    forall j | 0 < j < |order|
      ensures Lt(KeyBytes(v, order[j - 1]), KeyBytes(v, order[j]))
    {
      KeyBytesInjective(v, order[j - 1], order[j]);
      assert !Lt(Keys(v)[order[j]], Keys(v)[order[j - 1]]);
      LtTotal(KeyBytes(v, order[j - 1]), KeyBytes(v, order[j]));
      assert order[j - 1] != order[j];
    }
  }

  /** Keys that ascend strictly in wire order are distinct. */
  lemma ChainIsDistinct(v: Cv)
    requires IsMap(v) && Fits(v) && Chain(v, 0)
    ensures DistinctKeys(v)
  {
    hide Lt, OrderFrom, KeyBytes, KeyAt;
    forall i, j | 0 <= i < j < Count(v)
      ensures KeyAt(v, i) != KeyAt(v, j)
    {
      var x := PlaceOf(v, i);
      var y := PlaceOf(v, j);
      KeyBytesInjective(v, i, j);
      LtIrreflexive(KeyBytes(v, i));
      if x < y {
        ChainAscends(v, x, y);
      } else {
        ChainAscends(v, y, x);
      }
    }
  }

  // ---------------------------------------------------------------- reading an encoding back

  /** The entries from wire position `k` on can all be read at depth `d`. */
  ghost predicate EntriesReadable(v: Cv, k: nat, d: nat)
    requires IsMap(v)
  {
    Chain(v, k) && forall j | k <= j < Count(v) :: Decodable(ValAt(v, Order(v)[j]), d)
  }

  /** The main induction: an encoding anywhere in the input is read back as the normal form, or rejected. */
  lemma {:induction false} ValueRoundTrip(v: Cv, b: Bytes, p: nat, d: nat)
    requires Fits(v) && At(b, p, Encode(v))
    ensures Decodable(v, d) ==> Value(b, p, d) == Ok(Parsed(Normal(v), p + |Encode(v)|))
    ensures !Decodable(v, d) ==> Value(b, p, d).Err?
    decreases v, 2, 0
  {
    match v {
      case Array(a) =>
        ArrayRoundTrip(v, b, p, d);
      case Map(m) =>
        MapRoundTrip(v, b, p, d);
      case TextMap(t) =>
        MapRoundTrip(v, b, p, d);
      case _ =>
        LeafRoundTrip(v, b, p, d);
    }
  }

  /** Values without parts. */
  lemma LeafRoundTrip(v: Cv, b: Bytes, p: nat, d: nat)
    requires !v.Array? && !IsMap(v)
    requires Fits(v) && At(b, p, Encode(v))
    ensures d <= MAX_NESTING_DEPTH ==> Value(b, p, d) == Ok(Parsed(v, p + |Encode(v)|))
    ensures d > MAX_NESTING_DEPTH ==> Value(b, p, d).Err?
  {
    hide ValidUtf8, Argument, Items, Entries;
    match v {
      case Uint(n) =>
        HeadRead(b, p, 0, n);
      case Bstr(x) =>
        AtConcat(b, p, Head(2, |x|), x);
        HeadRead(b, p, 2, |x|);
      case Text(x) =>
        AtConcat(b, p, Head(3, |x|), x);
        HeadRead(b, p, 3, |x|);
      case Bool(f) =>
        assert b[p] == b[p..p + 1][0];
    }
  }

  lemma {:induction false} ArrayRoundTrip(v: Cv, b: Bytes, p: nat, d: nat)
    requires v.Array? && Fits(v) && At(b, p, Encode(v))
    ensures Decodable(v, d) ==> Value(b, p, d) == Ok(Parsed(Normal(v), p + |Encode(v)|))
    ensures !Decodable(v, d) ==> Value(b, p, d).Err?
    decreases v, 1, 0
  {
    hide Argument, Entries, Items, EncodeItems;
    var h := Head(4, |v.a|);
    AtConcat(b, p, h, EncodeItems(v, 0));
    HeadRead(b, p, 4, |v.a|);
    ItemsRoundTrip(v, 0, b, p + |h|, d + 1);
    assert NormalTail(v, 0) == Normal(v).a;
  }

  function NormalTail(v: Cv, i: nat): seq<Cv>
    requires v.Array? && i <= |v.a|
  {
    seq(|v.a| - i, k requires 0 <= k < |v.a| - i => Normal(v.a[i + k]))
  }

  lemma {:induction false} ItemsRoundTrip(v: Cv, i: nat, b: Bytes, p: nat, d: nat)
    requires v.Array? && i <= |v.a| && Fits(v)
    requires At(b, p, EncodeItems(v, i))
    ensures (forall k | i <= k < |v.a| :: Decodable(v.a[k], d)) ==>
      Items(b, p, d, |v.a| - i) == Ok(Parsed(NormalTail(v, i), p + |EncodeItems(v, i)|))
    ensures (exists k | i <= k < |v.a| :: !Decodable(v.a[k], d)) ==> Items(b, p, d, |v.a| - i).Err?
    decreases v, 0, |v.a| - i
  {
    hide Encode, Normal, Decodable, Value;
    if i < |v.a| {
      AtConcat(b, p, Encode(v.a[i]), EncodeItems(v, i + 1));
      ValueRoundTrip(v.a[i], b, p, d);
      ItemsRoundTrip(v, i + 1, b, p + |Encode(v.a[i])|, d);
      assert NormalTail(v, i) == [Normal(v.a[i])] + NormalTail(v, i + 1);
    } else {
      assert NormalTail(v, i) == [] && EncodeItems(v, i) == [];
      assert Items(b, p, d, 0) == Ok(Parsed([], p));
    }
  }

  lemma {:induction false} MapRoundTrip(v: Cv, b: Bytes, p: nat, d: nat)
    requires IsMap(v) && Fits(v) && At(b, p, Encode(v))
    ensures Decodable(v, d) ==> Value(b, p, d) == Ok(Parsed(Normal(v), p + |Encode(v)|))
    ensures !Decodable(v, d) ==> Value(b, p, d).Err?
    decreases v, 1, 0
  {
    hide Decodable, EntriesReadable, Entries, EncodeEntries, NormalEntries, MapOf, Argument, Head, OrderFrom;
    var h := Head(5, Count(v));
    AtConcat(b, p, h, EncodeEntries(v, Order(v)));
    HeadRead(b, p, 5, Count(v));
    assert Order(v)[0..] == Order(v);
    EntriesRoundTrip(v, 0, b, p + |h|, d + 1);
    assert NormalEntries(v)[0..] == NormalEntries(v);
    MapDecodableIff(v, d);
  }

  /** Reading a map's body decides whether the map can be read. */
  lemma MapDecodableIff(v: Cv, d: nat)
    requires IsMap(v) && Fits(v)
    ensures Decodable(v, d) <==> d <= MAX_NESTING_DEPTH && EntriesReadable(v, 0, d + 1)
  {
    hide Chain, OrderFrom, KeyAt;
    DecodableMap(v, d);
    if EntriesReadable(v, 0, d + 1) {
      ChainIsDistinct(v);
      forall i | 0 <= i < Count(v)
        ensures Decodable(ValAt(v, i), d + 1)
      {
        var x := PlaceOf(v, i);
      }
    }
    if DistinctKeys(v) {
      DistinctChains(v);
    }
  }

  lemma FitsMap(v: Cv, i: nat)
    requires IsMap(v) && Fits(v) && i < Count(v)
    ensures Fits(KeyAt(v, i)) && Fits(ValAt(v, i)) && KeyBytes(v, i) == Encode(KeyAt(v, i))
    ensures !KeyAt(v, i).Array? && !IsMap(KeyAt(v, i))
    ensures KindOf(KeyAt(v, i)) == Some(if v.Map? then IntKeys else TextKeys)
  {
  }

  /** One entry that cannot be read, or whose key is not above `prev`, fails the rest. */
  lemma EntriesFail(b: Bytes, p: nat, d: nat, n: nat, prev: Option<Bytes>, kind: Option<KeyKind>)
    requires p <= |b| && n > 0
    requires
      || Value(b, p, d).Err?
      || (prev.Some? && !Lt(prev.value, b[p..Value(b, p, d).value.pos]))
      || Value(b, Value(b, p, d).value.pos, d).Err?
    ensures Entries(b, p, d, n, prev, kind).Err?
  {
    hide Lt;
    if Value(b, p, d).Ok? && prev.Some? {
      LtTotal(prev.value, b[p..Value(b, p, d).value.pos]);
    }
  }

  /** One entry that can be read leaves the rest to decide. */
  lemma EntriesGo(b: Bytes, p: nat, d: nat, n: nat, prev: Option<Bytes>, kind: Option<KeyKind>, key: Cv, q: nat,
                  val: Cv, r: nat)
    requires p <= q <= |b| && r <= |b| && n > 0
    requires Value(b, p, d) == Ok(Parsed(key, q)) && Value(b, q, d) == Ok(Parsed(val, r))
    requires prev.Some? ==> Lt(prev.value, b[p..q])
    requires KindOf(key).Some? && (kind.Some? ==> kind == KindOf(key))
    ensures var rest := Entries(b, r, d, n - 1, Some(b[p..q]), KindOf(key));
      Entries(b, p, d, n, prev, kind) ==
        if rest.Err? then rest else Ok(Parsed([(key, val)] + rest.value.val, rest.value.pos))
  {
    hide Lt;
    if prev.Some? {
      LtAsymmetric(prev.value, b[p..q]);
      LtIrreflexive(b[p..q]);
    }
  }

  /** The encoded key in front of wire position `k`. */
  ghost function PrevKey(v: Cv, k: nat): (key: Option<Bytes>)
    requires IsMap(v) && k <= Count(v)
    ensures key.Some? <==> k > 0
  {
    if k == 0 then None else Some(KeyBytes(v, Order(v)[k - 1]))
  }

  ghost function PrevKind(v: Cv, k: nat): Option<KeyKind>
    requires IsMap(v)
  {
    if k == 0 then None else Some(if v.Map? then IntKeys else TextKeys)
  }

  lemma {:induction false} EntriesRoundTrip(v: Cv, k: nat, b: Bytes, p: nat, d: nat)
    requires IsMap(v) && Fits(v) && k <= Count(v)
    requires At(b, p, EncodeEntries(v, Order(v)[k..]))
    ensures EntriesReadable(v, k, d) ==>
      Entries(b, p, d, Count(v) - k, PrevKey(v, k), PrevKind(v, k))
      == Ok(Parsed(NormalEntries(v)[k..], p + |EncodeEntries(v, Order(v)[k..])|))
    ensures !EntriesReadable(v, k, d) ==> Entries(b, p, d, Count(v) - k, PrevKey(v, k), PrevKind(v, k)).Err?
    decreases v, 0, Count(v) - k
  {
    hide Lt, Encode, Normal, Decodable, Value, Entries, OrderFrom, Fits, KeyBytes, KeyAt, ValAt, EntriesReadable;
    hide EncodeEntries, NormalEntries;
    hide PrevKey, PrevKind;
    ReadableStep(v, k, d);
    if k == Count(v) {
      assert Order(v)[k..] == [] && NormalEntries(v)[k..] == [] && EncodeEntries(v, []) == [] by {
        EntryEnd(v);
      }
      EntriesNone(b, p, d, PrevKey(v, k), PrevKind(v, k));
    } else {
      var i := Order(v)[k];
      var key, val := KeyAt(v, i), ValAt(v, i);
      FitsMap(v, i);
      var q := p + |Encode(key)|;
      var r := q + |Encode(val)|;
      EntryAt(v, k, b, p);
      DecodableDepth(val, d);
      ValueRoundTrip(val, b, q, d);
      EntryRead(v, k, b, p, d);
      if d <= MAX_NESTING_DEPTH && Decodable(val, d) && (k > 0 ==> Lt(PrevKey(v, k).value, Encode(key))) {
        EntriesRoundTrip(v, k + 1, b, r, d);
      }
    }
  }

  /** One entry of a map, read at its wire position: it goes on, or it fails the rest. */
  lemma EntryRead(v: Cv, k: nat, b: Bytes, p: nat, d: nat)
    requires IsMap(v) && Fits(v) && k < Count(v)
    requires var key, val := Encode(KeyAt(v, Order(v)[k])), Encode(ValAt(v, Order(v)[k]));
      At(b, p, key) && At(b, p + |key|, val)
    requires var i := Order(v)[k]; var key, val := KeyAt(v, i), ValAt(v, i); var q := p + |Encode(key)|;
      && (Decodable(val, d) ==> Value(b, q, d) == Ok(Parsed(Normal(val), q + |Encode(val)|)))
      && (!Decodable(val, d) ==> Value(b, q, d).Err?)
    ensures var i, n := Order(v)[k], Count(v) - k; var key, val := KeyAt(v, i), ValAt(v, i);
      var r := p + |Encode(key)| + |Encode(val)|;
      var here := Entries(b, p, d, n, PrevKey(v, k), PrevKind(v, k));
      && r <= |b|
      && if d <= MAX_NESTING_DEPTH && Decodable(val, d) && (k > 0 ==> Lt(PrevKey(v, k).value, Encode(key))) then
           var rest := Entries(b, r, d, n - 1, PrevKey(v, k + 1), PrevKind(v, k + 1));
           here == if rest.Err? then rest else Ok(Parsed([(key, Normal(val))] + rest.value.val, rest.value.pos))
         else here.Err?
  {
    hide Lt, Encode, Normal, Decodable, Value, Entries, OrderFrom, Fits, KeyBytes, KeyAt, ValAt;
    var i, n := Order(v)[k], Count(v) - k;
    var key, val := KeyAt(v, i), ValAt(v, i);
    var q := p + |Encode(key)|;
    FitsMap(v, i);
    LeafRoundTrip(key, b, p, d);
    if d <= MAX_NESTING_DEPTH && Decodable(val, d) && (k > 0 ==> Lt(PrevKey(v, k).value, Encode(key))) {
      EntriesGo(b, p, d, n, PrevKey(v, k), PrevKind(v, k), key, q, Normal(val), q + |Encode(val)|);
    } else {
      EntriesFail(b, p, d, n, PrevKey(v, k), PrevKind(v, k));
    }
  }

  lemma DecodableDepth(v: Cv, d: nat)
    ensures Decodable(v, d) ==> d <= MAX_NESTING_DEPTH
  {
  }

  lemma EntryEnd(v: Cv)
    requires IsMap(v)
    ensures EncodeEntries(v, []) == []
  {
  }

  /** Entry `k` in wire order: its bytes, and its place in the normal form. */
  lemma EntryAt(v: Cv, k: nat, b: Bytes, p: nat)
    requires IsMap(v) && Fits(v) && k < Count(v)
    requires At(b, p, EncodeEntries(v, Order(v)[k..]))
    ensures var i := Order(v)[k];
      var key, val, rest := KeyAt(v, i), ValAt(v, i), EncodeEntries(v, Order(v)[k + 1..]);
      && At(b, p, Encode(key)) && At(b, p + |Encode(key)|, Encode(val))
      && At(b, p + |Encode(key)| + |Encode(val)|, rest)
      && |EncodeEntries(v, Order(v)[k..])| == |Encode(key)| + |Encode(val)| + |rest|
      && NormalEntries(v)[k..] == [(key, Normal(val))] + NormalEntries(v)[k + 1..]
  {
    hide Encode, Normal, OrderFrom, KeyBytes, KeyAt, ValAt;
    var i := Order(v)[k];
    FitsMap(v, i);
    assert Order(v)[k..][1..] == Order(v)[k + 1..];
    var key, val := Encode(KeyAt(v, i)), Encode(ValAt(v, i));
    AtConcat(b, p, key, val);
    AtConcat(b, p, key + val, EncodeEntries(v, Order(v)[k + 1..]));
  }

  /** Being readable from `k` on, entry by entry. */
  lemma ReadableStep(v: Cv, k: nat, d: nat)
    requires IsMap(v) && k <= Count(v)
    ensures k == Count(v) ==> EntriesReadable(v, k, d)
    ensures k < Count(v) ==>
      (EntriesReadable(v, k, d) <==>
        && Decodable(ValAt(v, Order(v)[k]), d)
        && (k > 0 ==> Lt(PrevKey(v, k).value, KeyBytes(v, Order(v)[k])))
        && EntriesReadable(v, k + 1, d))
  {
    hide Lt, Decodable, OrderFrom, KeyBytes;
  }

  /** The normal form of an integer-keyed map: all of its entries, in ascending numeric order of their keys. */
  lemma NormalAscends(v: Cv)
    requires v.Map? && Fits(v) && DistinctKeys(v)
    ensures Normal(v).Map? && |Normal(v).m| == |v.m|
    ensures forall x, y | 0 <= x < y < |v.m| :: Normal(v).m[x].0 < Normal(v).m[y].0
    ensures forall i | 0 <= i < |v.m| :: (v.m[i].0, Normal(v.m[i].1)) in Normal(v).m
  {
    hide Lt, OrderFrom, Head, Fits, DistinctKeys;
    var order := Order(v);
    var n := NormalMap(v);
    DistinctChains(v);
    forall x, y | 0 <= x < y < |v.m|
      ensures n[x].0 < n[y].0
    {
      ChainAscends(v, x, y);
      HeadOrder(v.m[order[x]].0, v.m[order[y]].0);
    }
    forall i | 0 <= i < |v.m|
      ensures (v.m[i].0, Normal(v.m[i].1)) in n
    {
      var x := PlaceOf(v, i);
      assert n[x] == (v.m[i].0, Normal(v.m[i].1));
    }
  }

  lemma NormalMap(v: Cv) returns (n: seq<(U64, Cv)>)
    requires v.Map?
    ensures Normal(v) == Map(n) && |n| == |v.m|
    ensures forall x | 0 <= x < |n| :: n[x] == (v.m[Order(v)[x]].0, Normal(v.m[Order(v)[x]].1))
  {
    var es := NormalEntries(v);
    assert es != [] ==> KindOf(es[0].0) == Some(IntKeys);
    n := Normal(v).m;
  }

  // ---------------------------------------------------------------- the codec laws

  /** Encoder round trip: decoding succeeds exactly on decodable values and yields their normal form. */
  lemma RoundTrip(v: Cv)
    requires Fits(v)
    ensures Decodable(v, 0) ==> Decode(Encode(v)) == Ok(Normal(v))
    ensures !Decodable(v, 0) ==> Decode(Encode(v)).Err?
  {
    ValueRoundTrip(v, Encode(v), 0, 0);
  }

  /** The decoder is exactly the inverse of the encoder on canonical values. */
  lemma DecodeIff(b: Bytes, v: Cv)
    ensures Decode(b) == Ok(v) <==> b == Encode(v) && Canonical(v, 0)
  {
    if Decode(b) == Ok(v) {
      DecodeExact(b, v);
    }
    if b == Encode(v) && Canonical(v, 0) {
      RoundTrip(v);
    }
  }
}
