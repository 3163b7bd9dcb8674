/**
 The vector scripts against the codec: their encoder writes the canonical encoding, so splicing a key out of a
 canonical map leaves the canonical map without it; and how their lenient reader treats heads of any width.
 */
module SpliceCanon {
  import opened Prelude
  import opened CborBytes
  import opened CborValue
  import C = CborCanon
  import M = CborMeaning
  import opened Splice

  /** The value as the codec has it. */
  function CvOf(v: Val): Cv {
    match v
    case VUint(n) => Uint(n)
    case VBytes(b) => Bstr(b)
    case VArray(a) => Array(seq(|a|, i requires 0 <= i < |a| => CvOf(a[i])))
    case VMap(m) => Map(seq(|m|, i requires 0 <= i < |m| => (m[i].0, CvOf(m[i].1))))
  }

  lemma {:induction false} ItemsSame(items: seq<Bytes>, vs: seq<Cv>)
    requires |items| == |vs| && forall i | 0 <= i < |vs| :: items[i] == Encode(vs[i])
    ensures EmitItems(items) == C.EncodeAll(vs)
  {
    hide Encode;
    if vs != [] {
      ItemsSame(items[1..], vs[1..]);
    }
  }

  /** The pairs at these positions. */
  function Picked(ps: seq<(U64, Bytes)>, order: seq<nat>): (qs: seq<(U64, Bytes)>)
    requires forall j | 0 <= j < |order| :: order[j] < |ps|
    ensures |qs| == |order| && forall j | 0 <= j < |order| :: qs[j] == ps[order[j]]
  {
    seq(|order|, j requires 0 <= j < |order| => ps[order[j]])
  }

  /** The keys of these pairs as they are encoded. */
  ghost predicate KeysOfPairs(keys: seq<Bytes>, ps: seq<(U64, Bytes)>) {
    |keys| == |ps| && forall i | 0 <= i < |ps| :: keys[i] == Head(0, ps[i].0)
  }

  /** Inserting by number is inserting by encoded key. */
  lemma {:induction false} InsertSame(keys: seq<Bytes>, ps: seq<(U64, Bytes)>, i: nat, order: seq<nat>)
    requires KeysOfPairs(keys, ps) && i < |ps| && forall j | 0 <= j < |order| :: order[j] < |ps|
    ensures InsertPair(ps[i], Picked(ps, order)) == Picked(ps, Insert(keys, i, order))
  {
    hide Lt, Head;
    var qs := Picked(ps, order);
    if order != [] {
      HeadOrder(ps[order[0]].0, ps[i].0);
      assert qs[1..] == Picked(ps, order[1..]);
      InsertSame(keys, ps, i, order[1..]);
    }
  }

  /** Sorting by number is sorting by encoded key. */
  lemma {:induction false} SortSame(keys: seq<Bytes>, ps: seq<(U64, Bytes)>, i: nat)
    requires KeysOfPairs(keys, ps) && i <= |ps|
    ensures SortPairs(ps[i..]) == Picked(ps, OrderFrom(keys, i))
    decreases |ps| - i
  {
    hide Lt, Head, Insert, InsertPair;
    if i < |ps| {
      SortSame(keys, ps, i + 1);
      InsertSame(keys, ps, i, OrderFrom(keys, i + 1));
      assert ps[i..][1..] == ps[i + 1..] && ps[i..][0] == ps[i];
    }
  }

  lemma {:induction false} EmitSameBytes(v: Cv, ps: seq<(U64, Bytes)>, order: seq<nat>)
    requires v.Map? && |v.m| == |ps| && forall i | 0 <= i < |ps| :: ps[i] == (v.m[i].0, Encode(v.m[i].1))
    requires forall j | 0 <= j < |order| :: order[j] < |ps|
    ensures EmitPairs(Picked(ps, order)) == EncodeEntries(v, order)
  {
    hide Head, Encode;
    if order != [] {
      EmitSameBytes(v, ps, order[1..]);
      assert Picked(ps, order)[1..] == Picked(ps, order[1..]);
    }
  }

  /** The map encoder of the scripts, on encoded values, is the map encoder of the codec. */
  lemma MapSame(v: Cv, ps: seq<(U64, Bytes)>)
    requires v.Map? && |v.m| == |ps| && forall i | 0 <= i < |ps| :: ps[i] == (v.m[i].0, Encode(v.m[i].1))
    ensures EncMap(ps) == Encode(v)
  {
    hide Head, OrderFrom, SortPairs, EmitPairs, EncodeEntries;
    assert ps[0..] == ps;
    SortSame(Keys(v), ps, 0);
    EmitSameBytes(v, ps, Order(v));
  }

  /** The scripts write exactly the canonical encoding, of every value they can build. */
  lemma {:induction false} ScriptsAreCanonical(v: Val)
    ensures EncVal(v) == Encode(CvOf(v))
    decreases v
  {
    match v {
      case VUint(_) =>
      case VBytes(_) =>
      case VArray(a) =>
        ScriptArray(v);
      case VMap(m) =>
        ScriptMap(v);
    }
  }

  lemma {:induction false} ScriptArray(v: Val)
    requires v.VArray?
    ensures EncVal(v) == Encode(CvOf(v))
    decreases v, 0
  {
    hide Encode, Head, EmitItems;
    var items := seq(|v.a|, i requires 0 <= i < |v.a| => EncVal(v.a[i]));
    forall i | 0 <= i < |v.a|
      ensures items[i] == Encode(CvOf(v).a[i])
    {
      ScriptsAreCanonical(v.a[i]);
    }
    ItemsSame(items, CvOf(v).a);
    C.EncodeArray(CvOf(v).a);
    assert EncVal(v) == EncArray(items);
  }

  lemma {:induction false} ScriptMap(v: Val)
    requires v.VMap?
    ensures EncVal(v) == Encode(CvOf(v))
    decreases v, 0
  {
    hide Encode, EncMap;
    var ps := seq(|v.m|, i requires 0 <= i < |v.m| => (v.m[i].0, EncVal(v.m[i].1)));
    forall i | 0 <= i < |v.m|
      ensures ps[i] == (CvOf(v).m[i].0, Encode(CvOf(v).m[i].1))
    {
      ScriptsAreCanonical(v.m[i].1);
    }
    MapSame(CvOf(v), ps);
    assert EncVal(v) == EncMap(ps);
  }

  /** The pairs without one key. */
  function WithoutKey(ps: seq<(U64, Val)>, d: nat): seq<(U64, Val)> {
    if ps == [] then [] else (if ps[0].0 == d then [] else [ps[0]]) + WithoutKey(ps[1..], d)
  }

  lemma {:induction false} WithoutSame(ps: seq<(U64, Val)>, d: nat)
    ensures Without(Encoded(ps), d) == Encoded(WithoutKey(ps, d))
  {
    hide EncVal;
    if ps != [] {
      WithoutSame(ps[1..], d);
      assert Encoded(ps)[1..] == Encoded(ps[1..]);
      assert Encoded(WithoutKey(ps, d)) ==
        (if ps[0].0 == d then [] else [Encoded(ps)[0]]) + Encoded(WithoutKey(ps[1..], d));
    }
  }

  /** Splicing a key out of a canonical map gives the canonical map of the other entries. */
  lemma SpliceIsCanonical(ps: seq<(U64, Val)>, d: nat)
    requires |ps| <= U64_MAX && (forall i | 0 <= i < |ps| :: ValFits(ps[i].1))
    requires forall x, y | 0 <= x < y < |ps| :: ps[x].0 != ps[y].0
    ensures Stripped(Encode(CvOf(VMap(ps))), d) == Some(Encode(CvOf(VMap(WithoutKey(ps, d)))))
  {
    hide Stripped, Encode, EncMap, CvOf, ValFits, Without, WithoutKey;
    SpliceIsReencode(ps, d);
    WithoutSame(ps, d);
    ScriptsAreCanonical(VMap(ps));
    ScriptsAreCanonical(VMap(WithoutKey(ps, d)));
    MapVal(ps);
    MapVal(WithoutKey(ps, d));
  }

  lemma MapVal(ps: seq<(U64, Val)>)
    ensures EncVal(VMap(ps)) == EncMap(Encoded(ps))
  {
    hide EncMap;
    assert seq(|ps|, i requires 0 <= i < |ps| => (ps[i].0, EncVal(ps[i].1))) == Encoded(ps);
  }

  // ---------------------------------------------------------------- the lenient reader

  /** A head of any width is read, shortest or not. */
  lemma AnyHeadReads(buf: Bytes, i: nat, major: nat, arg: U64, w: nat)
    requires major < 8 && M.Holds(arg, w) && At(buf, i, M.Form(major, arg, w))
    ensures ReadHead(buf, i) == Some(HeadAt(major, arg, i + 1 + w))
  {
    hide BigEndian, FromBigEndian, Pow256;
    var h := M.Form(major, arg, w);
    assert buf[i] == buf[i..i + |h|][0] == h[0];
    if w > 0 {
      assert buf[i + 1..i + 1 + w] == buf[i..i + |h|][1..] == h[1..] == BigEndian(arg, w);
      Pow256Values();
      BigEndianRead(arg, w);
      assert w > 1 ==> Slice(buf, i + 1, w) == buf[i + 1..i + 1 + w];
      if w == 1 {
        assert buf[i + 1..i + 2] == [buf[i + 1]];
        OneByte(buf[i + 1]);
      }
    }
  }

  /** Only a map can be edited. */
  lemma StripRefuses(buf: Bytes, d: nat)
    requires buf == [] || buf[0] / 32 != 5
    ensures Stripped(buf, d) == None
  {
  }

  /** Integers of either sign are skipped by their head alone. */
  lemma IntegersSkip(buf: Bytes, i: nat, major: nat, arg: U64, w: nat)
    requires major <= 1 && M.Holds(arg, w) && At(buf, i, M.Form(major, arg, w))
    ensures SkipValue(buf, i) == Some(i + 1 + w)
  {
    hide ReadHead, M.Form, At;
    AnyHeadReads(buf, i, major, arg, w);
  }

  /** Text, tags and simple values are not skipped, nor is anything past the end or under a reserved head. */
  lemma SkipRefuses(buf: Bytes, i: nat)
    requires i >= |buf| || buf[i] / 32 == 3 || buf[i] / 32 >= 6 || buf[i] % 32 >= 28
    ensures SkipValue(buf, i) == None
  {
  }
}
