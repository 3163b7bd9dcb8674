/**
 What the codec's definitions mean, said without them: shortest heads among all heads, byte order by first
 difference, decodable values by the items inside them, and the encodings and refusals that the standard names.
 */
module CborMeaning {
  import opened Prelude
  import opened CborBytes
  import opened CborValue
  import opened CborParse
  import opened CborCanon
  import opened CborExact
  import opened CborRoundTrip

  // ---------------------------------------------------------------- heads

  /** A head with `w` argument bytes can carry the argument. */
  predicate Holds(arg: nat, w: nat) {
    if w == 0 then arg < 24
    else if w == 1 then arg < 0x100
    else if w == 2 then arg < 0x1_0000
    else if w == 4 then arg < 0x1_0000_0000
    else w == 8 && arg < 0x1_0000_0000_0000_0000
  }

  /** The head with `w` argument bytes, shortest or not. */
  function Form(major: nat, arg: nat, w: nat): (h: Bytes)
    requires major < 8 && Holds(arg, w)
    ensures |h| == 1 + w
  {
    [32 * major + (if w == 0 then arg else if w == 1 then 24 else if w == 2 then 25 else if w == 4 then 26 else 27)]
    + BigEndian(arg, w)
  }

  /** What is written is a head for the argument, and none is shorter. */
  lemma HeadShortest(major: nat, arg: U64) returns (w: nat)
    requires major < 8
    ensures Holds(arg, w) && Head(major, arg) == Form(major, arg, w)
    ensures forall u: nat | Holds(arg, u) :: |Head(major, arg)| <= 1 + u
  {
    w := Width(InfoOf(arg));
  }

  /** A head is read exactly if it is the shortest; any longer one is refused for that reason. */
  lemma ShortestOnly(b: Bytes, p: nat, major: nat, arg: U64, w: nat)
    requires major < 8 && Holds(arg, w) && At(b, p, Form(major, arg, w))
    ensures p < |b| && Argument(b, p + 1, b[p] % 32) ==
      if exists u: nat :: u < w && Holds(arg, u) then Err(NonShortestForm) else Ok(Parsed(arg, p + 1 + w))
  {
    hide BigEndian, FromBigEndian, Pow256;
    var h := Form(major, arg, w);
    assert b[p] == b[p..p + |h|][0] == h[0];
    if w == 0 {
      assert b[p] % 32 == arg;
    } else {
      assert b[p + 1..p + 1 + w] == b[p..p + |h|][1..] == h[1..] == BigEndian(arg, w);
      Pow256Values();
      BigEndianRead(arg, w);
      Narrower(arg, w);
    }
  }

  /** A narrower width holds the argument exactly if the shortest head is not this wide. */
  lemma Narrower(arg: U64, w: nat)
    requires Holds(arg, w) && w > 0
    ensures (exists u: nat :: u < w && Holds(arg, u)) <==> Width(InfoOf(arg)) != w
  {
    var v := Width(InfoOf(arg));
    assert Holds(arg, v) && v <= w;
    forall u: nat | u < w && Holds(arg, u)
      ensures v != w
    {
    }
  }

  // ---------------------------------------------------------------- order

  /** Byte strings are ordered by their first difference; a proper prefix comes first. */
  lemma {:induction false} LtFirstDifference(a: Bytes, b: Bytes)
    ensures Lt(a, b) <==>
            exists i: nat :: i <= |a| && i < |b| && a[..i] == b[..i] && (i == |a| || a[i] < b[i])
  {
    if a == [] {
      assert b != [] ==> a[..0] == b[..0];
    } else if b != [] {
      LtFirstDifference(a[1..], b[1..]);
      if Lt(a, b) {
        if a[0] < b[0] {
          assert a[..0] == b[..0];
        } else {
          var i: nat :| i <= |a[1..]| && i < |b[1..]| && a[1..][..i] == b[1..][..i]
                        && (i == |a[1..]| || a[1..][i] < b[1..][i]);
          assert a[..i + 1] == [a[0]] + a[1..][..i] && b[..i + 1] == [b[0]] + b[1..][..i];
        }
      }
      if i: nat :| i <= |a| && i < |b| && a[..i] == b[..i] && (i == |a| || a[i] < b[i]) {
        if i > 0 {
          assert a[0] == a[..i][0] == b[..i][0] == b[0];
          assert a[1..][..i - 1] == a[..i][1..] && b[1..][..i - 1] == b[..i][1..];
        }
      }
    }
  }

  // ---------------------------------------------------------------- items inside a value

  function Parts(v: Cv): nat {
    match v
    case Array(a) => |a|
    case Map(m) => |m|
    case TextMap(t) => |t|
    case _ => 0
  }

  function PartAt(v: Cv, i: nat): (x: Cv)
    requires i < Parts(v)
    ensures x < v
  {
    match v
    case Array(a) => a[i]
    case Map(m) => m[i].1
    case TextMap(t) => t[i].1
  }

  /** A way down into a value, by positions of items and entries. */
  predicate Inside(v: Cv, path: seq<nat>)
    decreases |path|
  {
    path == [] || (path[0] < Parts(v) && Inside(PartAt(v, path[0]), path[1..]))
  }

  function ItemAt(v: Cv, path: seq<nat>): Cv
    requires Inside(v, path)
    decreases |path|
  {
    if path == [] then v else ItemAt(PartAt(v, path[0]), path[1..])
  }

  /** The item at the end of a way down sits no deeper than level 64 and, if a map, has distinct keys. */
  ghost predicate Sound(v: Cv, d: nat, path: seq<nat>)
    requires Inside(v, path)
  {
    d + |path| <= 64 && (IsMap(ItemAt(v, path)) ==> DistinctKeys(ItemAt(v, path)))
  }

  lemma {:induction false} DecodableSound(v: Cv, d: nat, path: seq<nat>)
    requires Decodable(v, d) && Inside(v, path)
    ensures Sound(v, d, path)
    decreases |path|
  {
    hide DistinctKeys, Decodable;
    DecodableParts(v, d);
    if path != [] {
      DecodableSound(PartAt(v, path[0]), d + 1, path[1..]);
      assert Sound(PartAt(v, path[0]), d + 1, path[1..]);
    }
  }

  lemma {:induction false} SoundDecodable(v: Cv, d: nat)
    requires forall path | Inside(v, path) :: Sound(v, d, path)
    ensures Decodable(v, d)
    decreases v
  {
    hide DistinctKeys, Decodable;
    DecodableParts(v, d);
    assert Inside(v, []) && Sound(v, d, []);
    forall i | 0 <= i < Parts(v)
      ensures Decodable(PartAt(v, i), d + 1)
    {
      forall path | Inside(PartAt(v, i), path)
        ensures Sound(PartAt(v, i), d + 1, path)
      {
        var down := [i] + path;
        assert down[1..] == path;
        assert Inside(v, down) && Sound(v, d, down);
      }
      SoundDecodable(PartAt(v, i), d + 1);
    }
  }

  /** A value is decodable exactly if every item inside it is sound. */
  lemma DecodableByItems(v: Cv, d: nat)
    ensures Decodable(v, d) <==> forall path | Inside(v, path) :: Sound(v, d, path)
  {
    if Decodable(v, d) {
      forall path | Inside(v, path)
        ensures Sound(v, d, path)
      {
        DecodableSound(v, d, path);
      }
    }
    if forall path | Inside(v, path) :: Sound(v, d, path) {
      SoundDecodable(v, d);
    }
  }

  lemma DecodableParts(v: Cv, d: nat)
    ensures Decodable(v, d) <==>
            && d <= 64
            && (IsMap(v) ==> DistinctKeys(v))
            && forall i | 0 <= i < Parts(v) :: Decodable(PartAt(v, i), d + 1)
  {
    hide DistinctKeys;
    if IsMap(v) {
      DecodableMap(v, d);
      assert forall i | 0 <= i < Count(v) :: ValAt(v, i) == PartAt(v, i);
    } else if v.Array? {
      assert forall i | 0 <= i < |v.a| :: v.a[i] == PartAt(v, i);
    }
  }

  /** The round trip in these terms: it succeeds exactly if every item inside the value is sound. */
  lemma RoundTripByItems(v: Cv)
    requires Fits(v)
    ensures Decode(Encode(v)).Ok? <==> forall path | Inside(v, path) :: Sound(v, 0, path)
  {
    RoundTrip(v);
    DecodableByItems(v, 0);
  }

  // ---------------------------------------------------------------- what is refused, and as what

  /** The first byte alone decides the refusal of these, whatever follows. */
  lemma RefusedByFirstByte(b: Bytes)
    ensures b == [] ==> Decode(b) == Err(Malformed)
    ensures b != [] && 0x20 <= b[0] <= 0x37 ==> Decode(b) == Err(IntRange)
    ensures b != [] && 0xC0 <= b[0] <= 0xD7 ==> Decode(b) == Err(TagOrUndefined)
    ensures b != [] && b[0] < 0xE0 && 28 <= b[0] % 32 <= 30 ==> Decode(b) == Err(Malformed)
    ensures b != [] && b[0] < 0xE0 && b[0] % 32 == 31 ==> Decode(b) == Err(IndefiniteLength)
    ensures b != [] && (0xE0 <= b[0] <= 0xF3 || b[0] == 0xFF) ==> Decode(b) == Err(IndefiniteLength)
    ensures b != [] && b[0] == 0xF6 ==> Decode(b) == Err(NullPresent)
    ensures b != [] && b[0] == 0xF7 ==> Decode(b) == Err(TagOrUndefined)
    ensures b != [] && b[0] == 0xF8 ==> Decode(b) == Err(if |b| >= 2 then TagOrUndefined else Malformed)
    ensures b != [] && b[0] == 0xF9 ==> Decode(b) == Err(if |b| >= 3 then FloatPresent else Malformed)
    ensures b != [] && b[0] == 0xFA ==> Decode(b) == Err(if |b| >= 5 then FloatPresent else Malformed)
    ensures b != [] && b[0] == 0xFB ==> Decode(b) == Err(if |b| >= 9 then FloatPresent else Malformed)
    ensures b != [] && 0xFC <= b[0] <= 0xFE ==> Decode(b) == Err(Malformed)
  {
    hide Items, Entries;
    if b != [] && b[0] % 32 < 24 && (b[0] / 32 == 1 || b[0] / 32 == 6) {
      var n := b[0] % 32;
      assert Argument(b, 1, n) == Ok(Parsed(n, 1));
      assert Value(b, 0, 0) == Body(b, 0, 0, b[0] / 32, n, 1);
    }
  }

  /** Anything after one item is refused as trailing. */
  lemma TrailingRefused(v: Cv, x: Bytes)
    requires Fits(v) && Decodable(v, 0) && x != []
    ensures Decode(Encode(v) + x) == Err(TrailingData)
  {
    hide Encode, Value, Normal, Decodable;
    var b := Encode(v) + x;
    assert b[0..|Encode(v)|] == Encode(v);
    ValueRoundTrip(v, b, 0, 0);
  }

  lemma NormalKeepsKind(k: Cv)
    ensures KindOf(Normal(k)) == KindOf(k) && (KindOf(k).Some? ==> Normal(k) == k)
  {
    hide OrderFrom, NormalEntries;
  }

  lemma AtWhole(b: Bytes)
    ensures At(b, 0, b)
  {
  }

  /** The value stands between two positions one level down and is read there. */
  ghost predicate Reads(v: Cv, b: Bytes, p: nat, q: nat) {
    p <= q <= |b| && b[p..q] == Encode(v) && Value(b, p, 1) == Ok(Parsed(Normal(v), q))
  }

  /** Every decodable value is read where it stands. */
  lemma ReadAt(v: Cv, b: Bytes, p: nat)
    requires Fits(v) && Decodable(v, 1) && At(b, p, Encode(v))
    ensures Reads(v, b, p, p + |Encode(v)|)
  {
    hide Encode, Value, Normal, Fits, Decodable;
    ValueRoundTrip(v, b, p, 1);
  }

  /** The reason why a map of two entries is refused, if it is. */
  function PairRefusal(j: Cv, k: Cv): Option<CborError> {
    if KindOf(j).None? then Some(MixedMapKeys)
    else if Lt(Encode(k), Encode(j)) then Some(MapKeyOrder)
    else if k == j then Some(if k.Uint? then DuplicateKey(k.n) else DuplicateTextKey)
    else if KindOf(k) != KindOf(j) then Some(MixedMapKeys)
    else None
  }

  /**
   Two entries after a map head are refused for exactly that reason: keys out of order, equal, or not of one
   kind.
   */
  lemma PairRefused(b: Bytes, j: Cv, p: nat, x: Cv, q: nat, k: Cv, r: nat, y: Cv)
    requires b != [] && b[0] == 0xA2
    requires Reads(j, b, 1, p) && Reads(x, b, p, q) && Reads(k, b, q, r) && Reads(y, b, r, |b|)
    requires Fits(j) && Fits(k) && Decodable(j, 1) && Decodable(k, 1)
    ensures var d, why := Decode(b), PairRefusal(j, k); if why.None? then d.Ok? else d == Err(why.value)
  {
    hide Encode, Normal, Value, Entries, Fits, Decodable, PairRefusal, ListingRefusal, MapOf;
    RefusalSame(j, k);
    PairListing(b, Normal(j), p, Normal(x), q, Normal(k), r, Normal(y));
    MapHead(b);
  }

  /** The same reason from the keys as read and their bytes. */
  function ListingRefusal(a: Bytes, j: Cv, c: Bytes, k: Cv): Option<CborError> {
    if KindOf(j).None? then Some(MixedMapKeys)
    else if Lt(c, a) then Some(MapKeyOrder)
    else if c == a then Some(if k.Uint? then DuplicateKey(k.n) else DuplicateTextKey)
    else if KindOf(k) != KindOf(j) then Some(MixedMapKeys)
    else None
  }

  lemma RefusalSame(j: Cv, k: Cv)
    requires Fits(j) && Fits(k) && Decodable(j, 1) && Decodable(k, 1)
    ensures ListingRefusal(Encode(j), Normal(j), Encode(k), Normal(k)) == PairRefusal(j, k)
  {
    hide Encode, Normal, Fits, Decodable, Lt;
    NormalKeepsKind(j);
    NormalKeepsKind(k);
    SameKeys(j, k);
  }

  /** The listing of two entries, in the order of the checks. */
  lemma PairListing(b: Bytes, j: Cv, p: nat, x: Cv, q: nat, k: Cv, r: nat, y: Cv)
    requires 1 <= p <= q <= r <= |b|
    requires Value(b, 1, 1) == Ok(Parsed(j, p)) && Value(b, p, 1) == Ok(Parsed(x, q))
    requires Value(b, q, 1) == Ok(Parsed(k, r)) && Value(b, r, 1) == Ok(Parsed(y, |b|))
    ensures var es, why := Entries(b, 1, 1, 2, None, None), ListingRefusal(b[1..p], j, b[q..r], k);
      if why.None? then es == Ok(Parsed([(j, x), (k, y)], |b|)) else es == Err(why.value)
  {
    hide Value, Entries, Lt;
    EntryStep(b, 1, 1, 2, None, None, j, p, x, q);
    if KindOf(j).Some? {
      EntryStep(b, q, 1, 1, Some(b[1..p]), KindOf(j), k, r, y, |b|);
      EntriesNone(b, |b|, 1, Some(b[q..r]), KindOf(k));
      assert [(j, x)] + ([(k, y)] + []) == [(j, x), (k, y)];
    }
  }

  /** Keys with one encoding are one key. */
  lemma SameKeys(j: Cv, k: Cv)
    requires Fits(j) && Fits(k) && Decodable(j, 1) && Decodable(k, 1)
    ensures Encode(j) == Encode(k) && KindOf(j).Some? ==> j == k
  {
    hide Encode, Normal, Value, Fits, Decodable;
    assert Encode(j)[0..|Encode(j)|] == Encode(j) && Encode(k)[0..|Encode(k)|] == Encode(k);
    ValueRoundTrip(j, Encode(j), 0, 1);
    ValueRoundTrip(k, Encode(k), 0, 1);
    NormalKeepsKind(j);
    NormalKeepsKind(k);
  }

  lemma MapHead(b: Bytes)
    requires b != [] && b[0] == 0xA2
    ensures var es := Entries(b, 1, 1, 2, None, None);
      Value(b, 0, 0) == if es.Err? then Err(es.error) else Ok(Parsed(MapOf(es.value.val), es.value.pos))
  {
    hide Entries;
    assert Argument(b, 1, b[0] % 32) == Ok(Parsed(2, 1));
  }

  /** One entry whose key and value can be read, in the order of the checks. */
  lemma EntryStep(b: Bytes, p: nat, d: nat, n: nat, prev: Option<Bytes>, kind: Option<KeyKind>,
                  key: Cv, q: nat, val: Cv, r: nat)
    requires p <= q <= r <= |b| && n > 0
    requires Value(b, p, d) == Ok(Parsed(key, q)) && Value(b, q, d) == Ok(Parsed(val, r))
    ensures var here := Entries(b, p, d, n, prev, kind);
      if prev.Some? && Lt(b[p..q], prev.value) then here == Err(MapKeyOrder)
      else if prev == Some(b[p..q]) then here == Err(if key.Uint? then DuplicateKey(key.n) else DuplicateTextKey)
      else if KindOf(key).None? || (kind.Some? && kind != KindOf(key)) then here == Err(MixedMapKeys)
      else
        var rest := Entries(b, r, d, n - 1, Some(b[p..q]), KindOf(key));
        here == if rest.Err? then rest else Ok(Parsed([(key, val)] + rest.value.val, rest.value.pos))
  {
    hide Value, Lt;
  }

  /** A text string is refused as malformed exactly if its bytes are not UTF-8. */
  lemma TextRefused(s: Bytes)
    requires |s| <= U64_MAX
    ensures Decode(Head(3, |s|) + s) == if ValidUtf8(s) then Ok(Text(s)) else Err(Malformed)
  {
    hide Head, ValidUtf8, Body, Value, At;
    var b, q := Head(3, |s|) + s, |Head(3, |s|)|;
    AtWhole(b);
    AtConcat(b, 0, Head(3, |s|), s);
    HeadValue(b, 3, |s|);
    assert b[q..q + |s|] == s;
    BodyOfText(b, |s|, q);
  }

  /** After its head, an item is its body. */
  lemma HeadValue(b: Bytes, major: nat, n: U64)
    requires major < 7 && At(b, 0, Head(major, n))
    ensures |Head(major, n)| <= |b| && Value(b, 0, 0) == Body(b, 0, 0, major, n, |Head(major, n)|)
  {
    hide Head, Argument, Body, Simple;
    HeadRead(b, 0, major, n);
  }

  lemma BodyOfText(b: Bytes, n: U64, q: nat)
    requires 0 < q && q + n == |b|
    ensures Body(b, 0, 0, 3, n, q) ==
      if ValidUtf8(b[q..q + n]) then Ok(Parsed(Text(b[q..q + n]), |b|)) else Err(Malformed)
  {
    hide ValidUtf8, Items, Entries;
  }

  /** A string cut short is malformed. */
  lemma CutShort(major: nat, n: U64, s: Bytes)
    requires (major == 2 || major == 3) && |s| < n
    ensures Decode(Head(major, n) + s) == Err(Malformed)
  {
    hide Head, ValidUtf8, Value, At;
    var b := Head(major, n) + s;
    AtWhole(b);
    AtConcat(b, 0, Head(major, n), s);
    HeadValue(b, major, n);
  }

  /** Arrays nested beyond the bound are malformed, however the input goes on. */
  lemma {:induction false} NestedRefused(b: Bytes, p: nat, d: nat)
    requires d <= 65 && p + 65 - d <= |b| && forall i | p <= i < p + 65 - d :: b[i] == 0x81
    ensures Value(b, p, d) == Err(Malformed)
    decreases 65 - d
  {
    hide Entries;
    if d < 65 {
      NestedRefused(b, p + 1, d + 1);
      assert Argument(b, p + 1, b[p] % 32) == Ok(Parsed(1, p + 1));
      assert Items(b, p + 1, d + 1, 1) == Err(Malformed);
      assert Value(b, p, d) == Body(b, p, d, 4, 1, p + 1);
    }
  }

  /** Sixty-five one-item arrays inside each other are refused before anything inside them is looked at. */
  lemma DeepRefused(b: Bytes)
    requires |b| >= 65 && forall i | 0 <= i < 65 :: b[i] == 0x81
    ensures Decode(b) == Err(Malformed)
  {
    hide Value;
    NestedRefused(b, 0, 0);
  }

  // ---------------------------------------------------------------- examples of the standard

  lemma SmallHead(major: nat, n: nat)
    requires major < 8 && n < 24
    ensures Head(major, n) == [32 * major + n]
  {
    NoBytes(major, n);
  }

  lemma TwoBytes(v: nat)
    requires v < 0x1_0000
    ensures BigEndian(v, 2) == [v / 256, v % 256]
  {
    assert BigEndian(v / 256, 1) == BigEndian(v / 256 / 256, 0) + [v / 256];
  }

  /** Numbers, booleans and strings from appendix A of RFC 8949. */
  lemma LeafExamples()
    ensures Encode(Uint(10)) == [0x0A] && Encode(Uint(100)) == [0x18, 0x64] && Encode(Uint(1000)) == [0x19, 0x03, 0xE8]
    ensures Encode(Bool(false)) == [0xF4] && Encode(Bool(true)) == [0xF5]
    ensures Encode(Bstr([1, 2, 3, 4])) == [0x44, 1, 2, 3, 4] && Encode(Text([0x61])) == [0x61, 0x61]
  {
    SmallHead(0, 10);
    SmallHead(2, 4);
    SmallHead(3, 1);
    TwoBytes(1000);
    assert BigEndian(100, 1) == BigEndian(0, 0) + [100];
  }

  lemma SmallUint(n: nat)
    requires n < 24
    ensures Encode(Uint(n)) == [n] && Head(0, n) == [n]
  {
    SmallHead(0, n);
  }

  /** An array from appendix A of RFC 8949. */
  lemma ArrayExample()
    ensures Encode(Array([Uint(1), Uint(2), Uint(3)])) == [0x83, 1, 2, 3]
  {
    hide Encode, Head;
    var a: seq<Cv> := [Uint(1), Uint(2), Uint(3)];
    EncodeArray(a);
    SmallHead(4, 3);
    SmallUint(1);
    SmallUint(2);
    SmallUint(3);
    assert a[1..] == [Uint(2), Uint(3)] && a[1..][1..] == [Uint(3)] && a[1..][1..][1..] == [];
  }

  /** An integer-keyed map, entries out of order. */
  lemma MapExample()
    ensures Encode(Map([(3, Uint(4)), (1, Uint(2))])) == [0xA2, 1, 2, 3, 4]
  {
    hide Encode, Head, Lt;
    var v := Map([(3, Uint(4)), (1, Uint(2))]);
    SmallHead(5, 2);
    SmallUint(1);
    SmallUint(2);
    SmallUint(3);
    SmallUint(4);
    HeadOrder(1, 3);
    assert OrderFrom(Keys(v), 2) == [];
    assert OrderFrom(Keys(v), 1) == [1];
    assert Order(v) == [1, 0];
    EncodeMap(v);
    var es := Arranged(v, [1, 0]);
    assert es == [(Uint(1), Uint(2)), (Uint(3), Uint(4))];
    assert es[1..] == [(Uint(3), Uint(4))] && es[1..][1..] == [];
    assert EncodePairs(es[1..]) == [3] + [4] + [];
    assert EncodePairs(es) == [1] + [2] + [3, 4];
  }

  /** A text-keyed map from appendix A of RFC 8949. */
  lemma TextMapExample()
    ensures Encode(TextMap([([0x61], Uint(1))])) == [0xA1, 0x61, 0x61, 1]
  {
    hide Encode, Head, Lt;
    var v := TextMap([([0x61], Uint(1))]);
    LeafExamples();
    SmallHead(5, 1);
    SmallUint(1);
    assert OrderFrom(Keys(v), 1) == [];
    assert Order(v) == [0];
    EncodeMap(v);
    var es := Arranged(v, [0]);
    assert es == [(Text([0x61]), Uint(1))] && es[1..] == [];
  }
}
