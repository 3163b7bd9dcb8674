/**
 The codec as it runs: an encoder that appends to a buffer and a decoder that moves a cursor.  Both
 are proved against the functions of `CborValue` and `CborParse`.
 */
module CborCodec {
  import opened Prelude
  import opened CborBytes
  import opened CborValue
  import opened CborCanon
  import P = CborParse

  /** The output buffer of the encoder. */
  class Encoder {
    var out: Bytes

    constructor ()
      ensures out == []
    {
      out := [];
    }

    /** `write_head`: major type and shortest-form argument. */
    method WriteHead(major: nat, arg: U64)
      requires major < 8
      modifies this
      ensures out == old(out) + Head(major, arg)
    {
      var m := 32 * major;
      if arg < 24 {
        out := out + [m + arg];
      } else if arg <= 0xFF {
        out := out + [m + 24];
        out := out + [arg];
        assert BigEndian(arg, 1) == BigEndian(arg / 256, 0) + [arg];
      } else if arg <= 0xFFFF {
        out := out + [m + 25];
        out := out + BigEndian(arg, 2);
      } else if arg <= 0xFFFF_FFFF {
        out := out + [m + 26];
        out := out + BigEndian(arg, 4);
      } else {
        out := out + [m + 27];
        out := out + BigEndian(arg, 8);
      }
    }

    /** `enc`: append the deterministic encoding of a value. */
    method Enc(v: Cv)
      requires Fits(v)
      modifies this
      ensures out == old(out) + Encode(v)
      decreases v, 1
    {
      match v {
        case Uint(n) =>
          WriteHead(0, n);
        case Bstr(b) =>
          WriteHead(2, |b|);
          out := out + b;
        case Text(s) =>
          WriteHead(3, |s|);
          out := out + s;
        case Bool(f) =>
          out := out + [if f then 0xF5 else 0xF4];
        case Array(a) =>
          EncItems(v);
        case Map(_) =>
          EncEntries(v);
        case TextMap(_) =>
          EncEntries(v);
      }
    }

    /** The array arm of `enc`. */
    method EncItems(v: Cv)
      requires v.Array? && Fits(v)
      modifies this
      ensures out == old(out) + Encode(v)
      decreases v, 0
    {
      hide Head, Encode, EncodeItems;
      ItemsFit(v);
      WriteHead(4, |v.a|);
      for i := 0 to |v.a|
        invariant out + EncodeItems(v, i) == old(out) + Encode(v)
      {
        ItemsNext(v, i);
        Enc(v.a[i]);
      }
      ItemsNext(v, |v.a|);
    }

    /** The map arms of `enc`: pair each value with its encoded key, sort stably by key, emit. */
    method EncEntries(v: Cv)
      requires IsMap(v) && Fits(v)
      modifies this
      ensures out == old(out) + Encode(v)
      decreases v, 0
    {
      hide Head, KeyBytes, ValAt, OrderFrom, Encode, EncodeEntries;
      var items: seq<(Bytes, Cv)> := [];
      for i := 0 to Count(v)
        invariant |items| == i && forall k | 0 <= k < i :: items[k] == (KeyBytes(v, k), ValAt(v, k))
      {
        items := items + [(KeyBytes(v, i), ValAt(v, i))];
      }
      var order := Order(v);
      EntriesFit(v);
      WriteHead(5, |items|);
      assert order[0..] == order;
      for j := 0 to |order|
        invariant out + EncodeEntries(v, order[j..]) == old(out) + Encode(v)
      {
        EntriesNext(v, order, j);
        out := out + items[order[j]].0;
        Enc(items[order[j]].1);
      }
      EntriesNext(v, order, |order|);
    }
  }

  lemma ItemsFit(v: Cv)
    requires v.Array? && Fits(v)
    ensures |v.a| <= U64_MAX && Encode(v) == Head(4, |v.a|) + EncodeItems(v, 0)
    ensures forall i | 0 <= i < |v.a| :: Fits(v.a[i])
  {
    hide EncodeItems;
  }

  lemma ItemsNext(v: Cv, i: nat)
    requires v.Array? && i <= |v.a|
    ensures EncodeItems(v, i) == if i == |v.a| then [] else Encode(v.a[i]) + EncodeItems(v, i + 1)
  {
  }

  lemma EntriesFit(v: Cv)
    requires IsMap(v) && Fits(v)
    ensures Count(v) <= U64_MAX && Encode(v) == Head(5, Count(v)) + EncodeEntries(v, Order(v))
    ensures forall i | 0 <= i < Count(v) :: Fits(ValAt(v, i))
  {
    hide OrderFrom, EncodeEntries;
  }

  /** The entries from wire position `j` on are the next entry and the rest. */
  lemma EntriesNext(v: Cv, order: seq<nat>, j: nat)
    requires IsMap(v) && j <= |order| && forall k | 0 <= k < |order| :: order[k] < Count(v)
    ensures j == |order| ==> EncodeEntries(v, order[j..]) == []
    ensures j < |order| ==>
      EncodeEntries(v, order[j..]) ==
        KeyBytes(v, order[j]) + Encode(ValAt(v, order[j])) + EncodeEntries(v, order[j + 1..])
  {
    hide KeyBytes, ValAt, Encode;
    assert j < |order| ==> order[j..][1..] == order[j + 1..];
  }

  /** `encode`: the encoding of one value in a fresh buffer. */
  method EncodeValue(v: Cv) returns (b: Bytes)
    requires Fits(v)
    ensures b == Encode(v)
  {
    var e := new Encoder();
    e.Enc(v);
    b := e.out;
  }

  /** A method result agrees with a parse: same error, or same value and cursor. */
  ghost predicate Agrees<T>(r: Result<T, P.CborError>, pos: nat, spec: P.Parse<T>) {
    match spec
    case Err(e) => r == Err(e)
    case Ok(s) => r == Ok(s.val) && pos == s.pos
  }

  ghost predicate SameTexts(es: seq<(Cv, Cv)>, t: seq<(Str, Cv)>) {
    |t| == |es| && forall k | 0 <= k < |es| :: es[k] == (Text(t[k].0), t[k].1)
  }

  type Listing = P.Parse<seq<(Cv, Cv)>>

  /** The whole listing is the entries read so far followed by the rest. */
  ghost predicate Joined(whole: Listing, es: seq<(Cv, Cv)>, rest: Listing) {
    whole == if rest.Err? then rest else Ok(P.Parsed(es + rest.value.val, rest.value.pos))
  }

  lemma JoinNone(whole: Listing)
    ensures Joined(whole, [], whole)
  {
    assert whole.Ok? ==> [] + whole.value.val == whole.value.val;
  }

  lemma JoinError(whole: Listing, es: seq<(Cv, Cv)>, rest: Listing)
    requires Joined(whole, es, rest)
    ensures rest.Err? ==> whole == rest
  {
  }

  lemma JoinStep(whole: Listing, es: seq<(Cv, Cv)>, here: Listing, key: Cv, val: Cv, rest: Listing)
    requires Joined(whole, es, here) && Joined(here, [(key, val)], rest)
    ensures Joined(whole, es + [(key, val)], rest)
  {
    assert rest.Ok? ==> es + ([(key, val)] + rest.value.val) == es + [(key, val)] + rest.value.val;
  }

  lemma JoinEnd(whole: Listing, es: seq<(Cv, Cv)>, b: Bytes, p: nat, d: nat, prev: Option<Bytes>,
                kind: Option<P.KeyKind>)
    requires p <= |b| && Joined(whole, es, P.Entries(b, p, d, 0, prev, kind))
    ensures whole == Ok(P.Parsed(es, p))
  {
    assert es + [] == es;
  }

  /** The whole list of items is those read so far followed by the rest. */
  ghost predicate ItemsJoined(whole: P.Parse<seq<Cv>>, out: seq<Cv>, rest: P.Parse<seq<Cv>>) {
    whole == if rest.Err? then rest else Ok(P.Parsed(out + rest.value.val, rest.value.pos))
  }

  lemma ItemsJoinNone(whole: P.Parse<seq<Cv>>)
    ensures ItemsJoined(whole, [], whole)
  {
    assert whole.Ok? ==> [] + whole.value.val == whole.value.val;
  }

  /** How a list of items goes on: it ends, it fails, or it takes one more. */
  lemma ItemsCases(whole: P.Parse<seq<Cv>>, out: seq<Cv>, b: Bytes, p: nat, d: nat, n: nat)
    requires p <= |b| && ItemsJoined(whole, out, P.Items(b, p, d, n))
    ensures n == 0 ==> whole == Ok(P.Parsed(out, p))
    ensures n > 0 && P.Value(b, p, d).Err? ==> whole == Err(P.Value(b, p, d).error)
    ensures n > 0 && P.Value(b, p, d).Ok? ==>
      var v := P.Value(b, p, d).value; ItemsJoined(whole, out + [v.val], P.Items(b, v.pos, d, n - 1))
  {
    hide P.Value;
    assert out + [] == out;
    if n > 0 && P.Value(b, p, d).Ok? {
      var v := P.Value(b, p, d).value;
      var rest := P.Items(b, v.pos, d, n - 1);
      assert rest.Ok? ==> out + ([v.val] + rest.value.val) == out + [v.val] + rest.value.val;
    }
  }

  /** Every way the next entry can end the listing, and how it goes on. */
  lemma EntriesCases(b: Bytes, p: nat, d: nat, n: nat, prev: Option<Bytes>, kind: Option<P.KeyKind>)
    requires p <= |b| && n > 0
    ensures var here, key := P.Entries(b, p, d, n, prev, kind), P.Value(b, p, d);
      if key.Err? then here == Err(key.error)
      else
        var kb := b[p..key.value.pos];
        if prev.Some? && Lt(kb, prev.value) then here == Err(P.MapKeyOrder)
        else if prev == Some(kb) then
          here == Err(if key.value.val.Uint? then P.DuplicateKey(key.value.val.n) else P.DuplicateTextKey)
        else
          var val := P.Value(b, key.value.pos, d);
          if val.Err? then here == Err(val.error)
          else if P.KindOf(key.value.val).None? || (kind.Some? && kind != P.KindOf(key.value.val)) then
            here == Err(P.MixedMapKeys)
          else
            Joined(here, [(key.value.val, val.value.val)],
                   P.Entries(b, val.value.pos, d, n - 1, Some(kb), P.KindOf(key.value.val)))
  {
    hide P.Value, Lt;
  }

  lemma SameNone()
    ensures SameInts([], []) && SameTexts([], [])
  {
  }

  lemma IntsGrow(es: seq<(Cv, Cv)>, m: seq<(U64, Cv)>, k: U64, val: Cv)
    requires SameInts(es, m)
    ensures SameInts(es + [(Uint(k), val)], m + [(k, val)])
  {
  }

  lemma TextsGrow(es: seq<(Cv, Cv)>, t: seq<(Str, Cv)>, s: Str, val: Cv)
    requires SameTexts(es, t)
    ensures SameTexts(es + [(Text(s), val)], t + [(s, val)])
  {
  }

  lemma MapOfTexts(es: seq<(Cv, Cv)>, t: seq<(Str, Cv)>)
    requires SameTexts(es, t) && es != []
    ensures P.Uniform(es, P.TextKeys) && P.MapOf(es) == TextMap(t)
  {
    assert P.MapOf(es).t == t;
  }

  /** The least argument that needs a head with this additional information. */
  function Least(ai: nat): nat {
    if ai == 24 then 24 else if ai == 25 then 0x100 else if ai == 26 then 0x1_0000 else 0x1_0000_0000
  }

  /** The cases of an argument by its additional information. */
  lemma ArgumentCases(b: Bytes, p: nat, ai: nat)
    requires p <= |b| && ai < 32
    ensures ai < 24 ==> P.Argument(b, p, ai) == Ok(P.Parsed(ai, p))
    ensures 28 <= ai <= 30 ==> P.Argument(b, p, ai) == Err(P.Malformed)
    ensures ai == 31 ==> P.Argument(b, p, ai) == Err(P.IndefiniteLength)
    ensures 24 <= ai <= 27 && p + Width(ai) > |b| ==> P.Argument(b, p, ai) == Err(P.Malformed)
    ensures 24 <= ai <= 27 && p + Width(ai) <= |b| ==>
      var v := FromBigEndian(b[p..p + Width(ai)]);
      && v <= U64_MAX
      && (v < Least(ai) ==> P.Argument(b, p, ai) == Err(P.NonShortestForm))
      && (v >= Least(ai) ==> P.Argument(b, p, ai) == Ok(P.Parsed(v, p + Width(ai))))
  {
    hide FromBigEndian, BigEndian, Pow256;
    if 24 <= ai <= 27 && p + Width(ai) <= |b| {
      Pow256Values();
      BigEndianWrite(b[p..p + Width(ai)]);
    }
  }

  /** The cases of a value by its first byte. */
  lemma ValueCases(b: Bytes, p: nat, d: nat)
    requires p <= |b|
    ensures d > P.MAX_NESTING_DEPTH || p == |b| ==> P.Value(b, p, d) == Err(P.Malformed)
    ensures d <= P.MAX_NESTING_DEPTH && p < |b| && b[p] / 32 == 7 ==> P.Value(b, p, d) == P.Simple(b, p + 1, b[p] % 32)
    ensures d <= P.MAX_NESTING_DEPTH && p < |b| && b[p] / 32 != 7 ==>
      var arg := P.Argument(b, p + 1, b[p] % 32);
      P.Value(b, p, d) == if arg.Err? then Err(arg.error) else P.Body(b, p, d, b[p] / 32, arg.value.val, arg.value.pos)
  {
    hide P.Body, P.Argument, P.Simple;
  }

  /** The cases of a body other than a map's. */
  lemma BodyCases(b: Bytes, p: nat, d: nat, major: nat, n: U64, q: nat)
    requires p < q <= |b| && major != 5 && major < 7
    ensures major == 0 ==> P.Body(b, p, d, major, n, q) == Ok(P.Parsed(Uint(n), q))
    ensures major == 1 ==> P.Body(b, p, d, major, n, q) == Err(P.IntRange)
    ensures major == 6 ==> P.Body(b, p, d, major, n, q) == Err(P.TagOrUndefined)
    ensures (major == 2 || major == 3) && q + n > |b| ==> P.Body(b, p, d, major, n, q) == Err(P.Malformed)
    ensures major == 2 && q + n <= |b| ==> P.Body(b, p, d, major, n, q) == Ok(P.Parsed(Bstr(b[q..q + n]), q + n))
    ensures major == 3 && q + n <= |b| ==>
      P.Body(b, p, d, major, n, q) ==
      if ValidUtf8(b[q..q + n]) then Ok(P.Parsed(Text(b[q..q + n]), q + n)) else Err(P.Malformed)
    ensures major == 4 ==>
      var vs := P.Items(b, q, d + 1, n);
      P.Body(b, p, d, major, n, q) == if vs.Err? then Err(vs.error) else Ok(P.Parsed(Array(vs.value.val), vs.value.pos))
  {
    hide P.Items, P.Entries, ValidUtf8;
  }

  lemma BodyOfMap(b: Bytes, p: nat, d: nat, n: U64, q: nat)
    requires p < q <= |b|
    ensures n == 0 ==> P.Body(b, p, d, 5, n, q) == Ok(P.Parsed(Map([]), q))
    ensures P.Body(b, p, d, 5, n, q) ==
      match P.Entries(b, q, d + 1, n, None, None)
      case Err(e) => Err(e)
      case Ok(s) => Ok(P.Parsed(P.MapOf(s.val), s.pos))
  {
  }

  /** The strict reader: every method advances `pos` and fails on the first non-canonical byte. */
  class Decoder {
    const b: Bytes
    var pos: nat

    constructor (bytes: Bytes)
      ensures b == bytes && pos == 0
    {
      b := bytes;
      pos := 0;
    }

    method Byte() returns (r: Result<Byte, P.CborError>)
      requires pos <= |b|
      modifies this
      ensures old(pos) < |b| ==> r == Ok(b[old(pos)]) && pos == old(pos) + 1
      ensures old(pos) == |b| ==> r == Err(P.Malformed) && pos == old(pos)
    {
      if pos == |b| {
        return Err(P.Malformed);
      }
      r := Ok(b[pos]);
      pos := pos + 1;
    }

    method Take(n: nat) returns (r: Result<Bytes, P.CborError>)
      requires pos <= |b|
      modifies this
      ensures old(pos) + n <= |b| ==> r == Ok(b[old(pos)..old(pos) + n]) && pos == old(pos) + n
      ensures old(pos) + n > |b| ==> r == Err(P.Malformed) && pos == old(pos)
    {
      if pos + n > |b| {
        return Err(P.Malformed);
      }
      r := Ok(b[pos..pos + n]);
      pos := pos + n;
    }

    /** `argument`: width by width, each rejecting what a narrower head could carry. */
    method Argument(ai: nat) returns (r: Result<U64, P.CborError>)
      requires pos <= |b| && ai < 32
      modifies this
      ensures Agrees(r, pos, P.Argument(b, old(pos), ai)) && old(pos) <= pos <= |b|
    {
      hide FromBigEndian, P.Argument;
      ArgumentCases(b, pos, ai);
      if ai <= 23 {
        return Ok(ai);
      }
      if ai == 28 || ai == 29 || ai == 30 {
        return Err(P.Malformed);
      }
      if ai == 31 {
        return Err(P.IndefiniteLength);
      }
      if ai == 24 {
        var x := Byte();
        if x.Err? {
          return Err(x.error);
        }
        assert b[old(pos)..old(pos) + 1] == [x.value];
        OneByte(x.value);
        return if x.value < 24 then Err(P.NonShortestForm) else Ok(x.value);
      }
      var s := Take(if ai == 25 then 2 else if ai == 26 then 4 else 8);
      if s.Err? {
        return Err(s.error);
      }
      var v := FromBigEndian(s.value);
      if ai == 25 {
        return if v <= 0xFF then Err(P.NonShortestForm) else Ok(v);
      } else if ai == 26 {
        return if v <= 0xFFFF then Err(P.NonShortestForm) else Ok(v);
      } else {
        return if v <= 0xFFFF_FFFF then Err(P.NonShortestForm) else Ok(v);
      }
    }

    /** `value`: one item, bounded in depth. */
    method Value(depth: nat) returns (r: Result<Cv, P.CborError>)
      requires pos <= |b|
      modifies this
      ensures Agrees(r, pos, P.Value(b, old(pos), depth)) && old(pos) <= pos <= |b|
      decreases |b| - pos, 0
    {
      hide P.Value, P.Body, P.Argument, P.Simple, P.Items, P.Entries, ValidUtf8;
      ValueCases(b, pos, depth);
      if depth > P.MAX_NESTING_DEPTH {
        return Err(P.Malformed);
      }
      var ib := Byte();
      if ib.Err? {
        return Err(ib.error);
      }
      var major, ai := ib.value / 32, ib.value % 32;
      if major == 7 {
        r := Simple(ai);
        return;
      }
      if major == 5 {
        r := MapValue(ai, depth);
        return;
      }
      var arg := Argument(ai);
      if arg.Err? {
        return Err(arg.error);
      }
      BodyCases(b, old(pos), depth, major, arg.value, pos);
      match major {
        case 0 => return Ok(Uint(arg.value));
        case 1 => return Err(P.IntRange);
        case 2 =>
          var s := Take(arg.value);
          return if s.Err? then Err(s.error) else Ok(Bstr(s.value));
        case 3 =>
          var s := Take(arg.value);
          if s.Err? {
            return Err(s.error);
          }
          if !ValidUtf8(s.value) {
            return Err(P.Malformed);
          }
          return Ok(Text(s.value));
        case 4 =>
          r := ArrayItems(arg.value, depth);
        case _ => return Err(P.TagOrUndefined);
      }
    }

    /** The array arm of `value`. */
    method ArrayItems(n: nat, depth: nat) returns (r: Result<Cv, P.CborError>)
      requires pos <= |b|
      modifies this
      ensures match P.Items(b, old(pos), depth + 1, n)
              case Err(e) => r == Err(e)
              case Ok(s) => r == Ok(Array(s.val)) && pos == s.pos
      ensures old(pos) <= pos <= |b|
      decreases |b| - pos, 2
    {
      hide P.Value, P.Items, ItemsJoined;
      var out: seq<Cv> := [];
      ghost var whole := P.Items(b, pos, depth + 1, n);
      ItemsJoinNone(whole);
      for i := 0 to n
        invariant old(pos) <= pos <= |b|
        invariant ItemsJoined(whole, out, P.Items(b, pos, depth + 1, n - i))
      {
        ItemsCases(whole, out, b, pos, depth + 1, n - i);
        var v := Value(depth + 1);
        if v.Err? {
          return Err(v.error);
        }
        out := out + [v.value];
      }
      ItemsCases(whole, out, b, pos, depth + 1, 0);
      return Ok(Array(out));
    }

    /** `map`: entries under strictly ascending keys of one kind. */
    method MapValue(ai: nat, depth: nat) returns (r: Result<Cv, P.CborError>)
      requires 0 < pos <= |b| && ai < 32
      modifies this
      ensures Agrees(r, pos,
        match P.Argument(b, old(pos), ai)
        case Err(e) => Err(e)
        case Ok(a) => P.Body(b, old(pos) - 1, depth, 5, a.val, a.pos))
      ensures old(pos) <= pos <= |b|
      decreases |b| - pos, 2
    {
      hide P.Value, P.Body, P.Argument, P.MapOf, P.Entries, Lt, SameInts, SameTexts, Joined;
      var arg := Argument(ai);
      if arg.Err? {
        return Err(arg.error);
      }
      var n := arg.value;
      BodyOfMap(b, old(pos) - 1, depth, n, pos);
      if n == 0 {
        return Ok(Map([]));
      }
      var prevKey: Option<Bytes>, kind: Option<P.KeyKind> := None, None;
      var intOut: seq<(U64, Cv)>, textOut: seq<(Str, Cv)> := [], [];
      ghost var es: seq<(Cv, Cv)> := [];
      ghost var whole := P.Entries(b, pos, depth + 1, n, None, None);
      JoinNone(whole);
      SameNone();
      for i := 0 to n
        invariant old(pos) <= pos <= |b| && |es| == i
        invariant Joined(whole, es, P.Entries(b, pos, depth + 1, n - i, prevKey, kind))
        invariant i == 0 <==> kind == None
        invariant kind != Some(P.TextKeys) ==> SameInts(es, intOut)
        invariant kind != Some(P.IntKeys) ==> SameTexts(es, textOut)
      {
        ghost var here := P.Entries(b, pos, depth + 1, n - i, prevKey, kind);
        JoinError(whole, es, here);
        var entry, keyBytes := NextEntry(depth, n - i, prevKey, kind);
        if entry.Err? {
          return Err(entry.error);
        }
        var (key, val) := entry.value;
        prevKey, kind := Some(keyBytes), P.KindOf(key);
        match key {
          case Uint(k) =>
            IntsGrow(es, intOut, k, val);
            intOut := intOut + [(k, val)];
          case Text(s) =>
            TextsGrow(es, textOut, s, val);
            textOut := textOut + [(s, val)];
        }
        JoinStep(whole, es, here, key, val, P.Entries(b, pos, depth + 1, n - i - 1, prevKey, kind));
        es := es + [(key, val)];
      }
      JoinEnd(whole, es, b, pos, depth + 1, prevKey, kind);
      if kind == Some(P.TextKeys) {
        MapOfTexts(es, textOut);
        return Ok(TextMap(textOut));
      }
      MapOfInts(es, intOut);
      return Ok(Map(intOut));
    }

    /** One turn of the loop in `map`: a key above the previous one, its value, and a key kind that fits. */
    method NextEntry(depth: nat, ghost n: nat, prevKey: Option<Bytes>, kind: Option<P.KeyKind>)
      returns (r: Result<(Cv, Cv), P.CborError>, keyBytes: Bytes)
      requires pos <= |b| && n > 0
      modifies this
      ensures r.Err? ==> P.Entries(b, old(pos), depth + 1, n, prevKey, kind) == Err(r.error)
      ensures r.Ok? ==> P.KindOf(r.value.0).Some? && (kind.Some? ==> kind == P.KindOf(r.value.0))
      ensures old(pos) <= pos <= |b|
      ensures r.Ok? ==> Joined(P.Entries(b, old(pos), depth + 1, n, prevKey, kind), [r.value],
                               P.Entries(b, pos, depth + 1, n - 1, Some(keyBytes), P.KindOf(r.value.0)))
      decreases |b| - pos, 1
    {
      hide P.Value, P.Entries, Lt, Joined;
      EntriesCases(b, pos, depth + 1, n, prevKey, kind);
      var keyStart := pos;
      keyBytes := [];
      var key := Value(depth + 1);
      if key.Err? {
        return Err(key.error), keyBytes;
      }
      keyBytes := b[keyStart..pos];
      if prevKey.Some? {
        if Lt(keyBytes, prevKey.value) {
          return Err(P.MapKeyOrder), keyBytes;
        }
        if keyBytes == prevKey.value {
          return Err(if key.value.Uint? then P.DuplicateKey(key.value.n) else P.DuplicateTextKey), keyBytes;
        }
      }
      var val := Value(depth + 1);
      if val.Err? {
        return Err(val.error), keyBytes;
      }
      if P.KindOf(key.value).None? || (kind.Some? && kind != P.KindOf(key.value)) {
        return Err(P.MixedMapKeys), keyBytes;
      }
      return Ok((key.value, val.value)), keyBytes;
    }

    /** `simple`: major type 7. */
    method Simple(ai: nat) returns (r: Result<Cv, P.CborError>)
      requires pos <= |b| && ai < 32
      modifies this
      ensures Agrees(r, pos, P.Simple(b, old(pos), ai)) && old(pos) <= pos <= |b|
    {
      match ai {
        case 20 => return Ok(Bool(false));
        case 21 => return Ok(Bool(true));
        case 22 => return Err(P.NullPresent);
        case 23 => return Err(P.TagOrUndefined);
        case 24 =>
          var x := Byte();
          return Err(if x.Err? then x.error else P.TagOrUndefined);
        case _ =>
          if 25 <= ai <= 27 {
            var s := Take(if ai == 25 then 2 else if ai == 26 then 4 else 8);
            return Err(if s.Err? then s.error else P.FloatPresent);
          } else if 28 <= ai <= 30 {
            return Err(P.Malformed);
          } else {
            return Err(P.IndefiniteLength);
          }
      }
    }
  }

  /** `decode`: one item, and nothing after it. */
  method DecodeBytes(bytes: Bytes) returns (r: Result<Cv, P.CborError>)
    ensures r == P.Decode(bytes)
  {
    var d := new Decoder(bytes);
    var cv := d.Value(0);
    if cv.Err? {
      return Err(cv.error);
    }
    if d.pos != |bytes| {
      return Err(P.TrailingData);
    }
    return cv;
  }
}
