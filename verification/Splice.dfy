/**
 The byte-splicing map editor of the vector verifier: it drops a key from an encoded map by reusing
 byte spans, without decoding values.  A Python exception is `None`.
 */
module Splice {
  import opened Prelude
  import opened CborBytes
  import opened CborValue
  import E = CborExact

  // ---------------------------------------------------------------- reading

  /** Python slicing `buf[i:i+n]`, which stops at the end of the buffer. */
  function Slice(buf: Bytes, i: nat, n: nat): Bytes {
    if i >= |buf| then [] else if i + n > |buf| then buf[i..] else buf[i..i + n]
  }

  datatype HeadAt = HeadAt(major: nat, arg: nat, next: nat)

  /** `cbor_read_head`. */
  function ReadHead(buf: Bytes, i: nat): (h: Option<HeadAt>)
    ensures h.Some? ==> i < |buf| && i < h.value.next
  {
    if i >= |buf| then None
    else
      var major, ai := buf[i] / 32, buf[i] % 32;
      if ai < 24 then Some(HeadAt(major, ai, i + 1))
      else if ai == 24 then
        if i + 1 >= |buf| then None else Some(HeadAt(major, buf[i + 1], i + 2))
      else if ai == 25 then Some(HeadAt(major, FromBigEndian(Slice(buf, i + 1, 2)), i + 3))
      else if ai == 26 then Some(HeadAt(major, FromBigEndian(Slice(buf, i + 1, 4)), i + 5))
      else if ai == 27 then Some(HeadAt(major, FromBigEndian(Slice(buf, i + 1, 8)), i + 9))
      else None
  }

  /** What `cbor_skip_value` returns: the position after the value at `i`. */
  function SkipValue(buf: Bytes, i: nat): (r: Option<nat>)
    ensures r.Some? ==> i < |buf| && i < r.value
    decreases if i < |buf| then |buf| - i else 0, 0
  {
    match ReadHead(buf, i)
    case None => None
    case Some(HeadAt(major, n, j)) =>
      if major == 0 || major == 1 then Some(j)
      else if major == 2 then Some(j + n)
      else if major == 4 then SkipMany(buf, j, n)
      else if major == 5 then SkipMany(buf, j, 2 * n)
      else None
  }

  /** The position after `n` values starting at `i`. */
  function SkipMany(buf: Bytes, i: nat, n: nat): (r: Option<nat>)
    ensures r.Some? ==> i <= r.value
    decreases if i < |buf| then |buf| - i else 0, 1, n
  {
    if n == 0 then Some(i)
    else
      match SkipValue(buf, i)
      case None => None
      case Some(j) => SkipMany(buf, j, n - 1)
  }

  /** One value, then the rest. */
  lemma SkipNext(buf: Bytes, i: nat, n: nat)
    ensures SkipMany(buf, i, 0) == Some(i)
    ensures SkipValue(buf, i).None? ==> SkipMany(buf, i, n + 1) == None
    ensures SkipValue(buf, i).Some? ==> SkipMany(buf, i, n + 1) == SkipMany(buf, SkipValue(buf, i).value, n)
  {
    hide SkipValue;
  }

  /** The branches of a value by its head. */
  lemma SkipByHead(buf: Bytes, i: nat)
    ensures SkipValue(buf, i) ==
      (match ReadHead(buf, i)
       case None => None
       case Some(HeadAt(major, n, j)) =>
         if major == 0 || major == 1 then Some(j)
         else if major == 2 then Some(j + n)
         else if major == 4 then SkipMany(buf, j, n)
         else if major == 5 then SkipMany(buf, j, 2 * n)
         else None)
  {
    hide ReadHead, SkipMany;
  }

  /** `cbor_skip_value`, moving its cursor in loops. */
  method CborSkipValue(buf: Bytes, i: nat) returns (r: Option<nat>)
    ensures r == SkipValue(buf, i)
    decreases if i < |buf| then |buf| - i else 0
  {
    hide ReadHead, SkipMany, SkipValue;
    SkipByHead(buf, i);
    var h := ReadHead(buf, i);
    if h.None? {
      return None;
    }
    var HeadAt(major, n, j) := h.value;
    if major == 0 || major == 1 {
      return Some(j);
    }
    if major == 2 {
      return Some(j + n);
    }
    if major == 4 {
      for k := 0 to n
        invariant j > i && SkipMany(buf, j, n - k) == SkipValue(buf, i)
      {
        SkipNext(buf, j, n - k - 1);
        var x := CborSkipValue(buf, j);
        if x.None? {
          return None;
        }
        j := x.value;
      }
      SkipNext(buf, j, 0);
      return Some(j);
    }
    if major == 5 {
      for k := 0 to n
        invariant j > i && SkipMany(buf, j, 2 * (n - k)) == SkipValue(buf, i)
      {
        SkipNext(buf, j, 2 * (n - k) - 1);
        var x := CborSkipValue(buf, j);
        if x.None? {
          return None;
        }
        j := x.value;
        SkipNext(buf, j, 2 * (n - k) - 2);
        var y := CborSkipValue(buf, j);
        if y.None? {
          return None;
        }
        j := y.value;
      }
      SkipNext(buf, j, 0);
      return Some(j);
    }
    return None;
  }

  type Spans = map<nat, (nat, nat)>

  /** The spans of `n` entries from `i` on, added to those found before. */
  function SpansFrom(buf: Bytes, i: nat, n: nat, spans: Spans): Option<Spans>
    decreases n
  {
    if n == 0 then Some(spans)
    else
      match ReadHead(buf, i)
      case None => None
      case Some(HeadAt(major, k, j)) =>
        if major != 0 then None
        else
          match SkipValue(buf, j)
          case None => None
          case Some(end) => SpansFrom(buf, end, n - 1, spans[k := (i, end)])
  }

  /** What `cbor_map_spans` returns: for each key the span of its key and value bytes. */
  function MapSpans(buf: Bytes): Option<Spans> {
    match ReadHead(buf, 0)
    case None => None
    case Some(HeadAt(major, n, i)) => if major != 5 then None else SpansFrom(buf, i, n, map[])
  }

  /** `cbor_map_spans`. */
  method CborMapSpans(buf: Bytes) returns (r: Option<Spans>)
    ensures r == MapSpans(buf)
  {
    hide ReadHead, SkipValue;
    var h := ReadHead(buf, 0);
    if h.None? || h.value.major != 5 {
      return None;
    }
    var n, i := h.value.arg, h.value.next;
    var spans: Spans := map[];
    for c := 0 to n
      invariant SpansFrom(buf, i, n - c, spans) == MapSpans(buf)
    {
      var kvStart := i;
      var key := ReadHead(buf, i);
      if key.None? || key.value.major != 0 {
        return None;
      }
      var j := CborSkipValue(buf, key.value.next);
      if j.None? {
        return None;
      }
      spans := spans[key.value.arg := (kvStart, j.value)];
      i := j.value;
    }
    return Some(spans);
  }

  // ---------------------------------------------------------------- ascending keys

  ghost predicate IsMin(s: set<nat>, k: nat) {
    k in s && forall x | x in s :: k <= x
  }

  lemma {:induction false} HasMin(s: set<nat>) returns (k: nat)
    requires s != {}
    ensures IsMin(s, k)
    decreases |s|
  {
    var c :| c in s;
    k := c;
    if s != {c} {
      assert s - {c} != {};
      var m := HasMin(s - {c});
      if m < c {
        k := m;
      }
    }
    assert s == {c} + (s - {c});
  }

  ghost function Min(s: set<nat>): (k: nat)
    requires s != {}
    ensures IsMin(s, k)
  {
    assert exists k :: IsMin(s, k) by {
      var k := HasMin(s);
    }
    var k :| IsMin(s, k);
    k
  }

  /** The list holds exactly the keys of the set, once each, in ascending order. */
  ghost predicate Ascending(ks: seq<nat>, s: set<nat>) {
    && |ks| == |s|
    && (forall k :: k in ks <==> k in s)
    && (forall x, y | 0 <= x < y < |ks| :: ks[x] < ks[y])
  }

  lemma AscendingCons(k: nat, rest: seq<nat>, s: set<nat>)
    requires IsMin(s, k) && Ascending(rest, s - {k})
    ensures Ascending([k] + rest, s)
  {
    hide IsMin;
    var ks := [k] + rest;
    MinBelow(s, k);
    forall x, y | 0 <= x < y < |ks|
      ensures ks[x] < ks[y]
    {
      assert ks[y] == rest[y - 1] && rest[y - 1] in rest;
      if x > 0 {
        assert ks[x] == rest[x - 1];
      }
    }
    forall x
      ensures x in ks <==> x in s
    {
      assert x in ks <==> x == k || x in rest;
      assert x in rest <==> x in s - {k};
    }
  }

  lemma MinBelow(s: set<nat>, k: nat)
    requires IsMin(s, k)
    ensures k in s && |s| == |s - {k}| + 1 && forall x | x in s - {k} :: k < x
  {
    assert s == {k} + (s - {k});
  }

  /** `sorted(...)` of a set of keys. */
  ghost function Ascend(s: set<nat>): (ks: seq<nat>)
    ensures Ascending(ks, s)
    decreases |s|
  {
    hide Ascending, IsMin;
    if s == {} then
      AscendingNone();
      []
    else
      var k := Min(s);
      Smaller(s, k);
      var rest := Ascend(s - {k});
      AscendingCons(k, rest, s);
      [k] + rest
  }

  lemma AscendingNone()
    ensures Ascending([], {})
  {
  }

  method MinKey(s: set<nat>) returns (k: nat)
    requires s != {}
    ensures IsMin(s, k)
  {
    k :| k in s;
    var rest := s - {k};
    while rest != {}
      invariant k in s && rest <= s
      invariant forall x | x in s && x !in rest :: k <= x
      decreases |rest|
    {
      var x :| x in rest;
      if x < k {
        k := x;
      }
      rest := rest - {x};
    }
  }

  lemma AscendStep(s: set<nat>, k: nat)
    requires IsMin(s, k)
    ensures Ascend(s) == [k] + Ascend(s - {k})
  {
    assert IsMin(s, Min(s));
  }

  /** Sorting by repeatedly taking the smallest key. */
  method SortedKeys(s: set<nat>) returns (ks: seq<nat>)
    ensures ks == Ascend(s)
  {
    hide Ascend, IsMin, Ascending;
    var left := s;
    ks := [];
    while left != {}
      invariant ks + Ascend(left) == Ascend(s)
      decreases |left|
    {
      var k := MinKey(left);
      AscendStep(left, k);
      Smaller(left, k);
      Regroup(ks, [k], Ascend(left - {k}));
      ks, left := ks + [k], left - {k};
    }
    AscendNone();
    assert ks + [] == ks;
  }

  lemma AscendNone()
    ensures Ascend({}) == []
  {
  }

  lemma Regroup(a: seq<nat>, b: seq<nat>, c: seq<nat>)
    ensures a + (b + c) == a + b + c
  {
  }

  lemma Smaller(s: set<nat>, k: nat)
    requires IsMin(s, k)
    ensures |s - {k}| < |s|
  {
  }

  /** A strictly ascending list is the sorted list of its elements. */
  lemma {:induction false} AscendUnique(ks: seq<nat>, s: set<nat>)
    requires forall x, y | 0 <= x < y < |ks| :: ks[x] < ks[y]
    requires forall k :: k in ks <==> k in s
    ensures ks == Ascend(s)
    decreases |ks|
  {
    hide Ascend;
    if ks == [] {
      assert s == {};
    } else {
      var k := ks[0];
      assert k in ks;
      assert IsMin(s, k);
      AscendStep(s, k);
      forall x
        ensures x in ks[1..] <==> x in s - {k}
      {
        assert ks == [k] + ks[1..];
      }
      AscendUnique(ks[1..], s - {k});
      assert ks == [k] + ks[1..];
    }
  }

  // ---------------------------------------------------------------- splicing

  /** `buf[s:e]`. */
  function SpanBytes(buf: Bytes, span: (nat, nat)): Bytes {
    Slice(buf, span.0, if span.1 >= span.0 then span.1 - span.0 else 0)
  }

  /** The spans of these keys, one after the other. */
  function Gather(buf: Bytes, spans: Spans, ks: seq<nat>): Bytes
    requires forall k | k in ks :: k in spans
  {
    if ks == [] then []
    else
      assert ks[0] in ks;
      SpanBytes(buf, spans[ks[0]]) + Gather(buf, spans, ks[1..])
  }

  lemma GatherNext(buf: Bytes, spans: Spans, ks: seq<nat>, c: nat)
    requires c <= |ks| && forall k | k in ks :: k in spans
    ensures c == |ks| ==> Gather(buf, spans, ks[c..]) == []
    ensures c < |ks| ==> Gather(buf, spans, ks[c..]) == SpanBytes(buf, spans[ks[c]]) + Gather(buf, spans, ks[c + 1..])
  {
    if c < |ks| {
      assert ks[c..][1..] == ks[c + 1..] && ks[c..][0] == ks[c];
    }
  }

  /** What `cbor_strip_key` returns. */
  ghost function Stripped(buf: Bytes, dropKey: nat): Option<Bytes> {
    match MapSpans(buf)
    case None => None
    case Some(spans) =>
      var kept := Ascend(spans.Keys - {dropKey});
      Some(Head(5, |kept|) + Gather(buf, spans, kept))
  }

  /** `cbor_strip_key`: rebuild the head, reuse every other byte. */
  method CborStripKey(buf: Bytes, dropKey: nat) returns (r: Option<Bytes>)
    ensures r == Stripped(buf, dropKey)
  {
    hide Gather, Head, Ascend, MapSpans, SpanBytes;
    var spans := CborMapSpans(buf);
    if spans.None? {
      return None;
    }
    var kept := SortedKeys(spans.value.Keys - {dropKey});
    assert forall k | k in kept :: k in spans.value;
    var out := Head(5, |kept|);
    assert kept[0..] == kept;
    for c := 0 to |kept|
      invariant out + Gather(buf, spans.value, kept[c..]) == Head(5, |kept|) + Gather(buf, spans.value, kept)
    {
      GatherNext(buf, spans.value, kept, c);
      out := out + SpanBytes(buf, spans.value[kept[c]]);
    }
    GatherNext(buf, spans.value, kept, |kept|);
    assert out + [] == out;
    return Some(out);
  }

  // ---------------------------------------------------------------- the simple encoder

  /** Entries sorted by key, stably. */
  function InsertPair(p: (U64, Bytes), ps: seq<(U64, Bytes)>): (r: seq<(U64, Bytes)>)
    ensures multiset(r) == multiset(ps) + multiset{p}
  {
    if ps == [] || p.0 <= ps[0].0 then [p] + ps
    else
      assert ps == [ps[0]] + ps[1..];
      [ps[0]] + InsertPair(p, ps[1..])
  }

  function SortPairs(ps: seq<(U64, Bytes)>): (r: seq<(U64, Bytes)>)
    ensures multiset(r) == multiset(ps)
  {
    if ps == [] then []
    else
      assert ps == [ps[0]] + ps[1..];
      InsertPair(ps[0], SortPairs(ps[1..]))
  }

  function EmitPairs(ps: seq<(U64, Bytes)>): Bytes {
    if ps == [] then [] else Head(0, ps[0].0) + ps[0].1 + EmitPairs(ps[1..])
  }

  /** `enc_map`: entries under ascending integer keys. */
  function EncMap(ps: seq<(U64, Bytes)>): Bytes {
    Head(5, |ps|) + EmitPairs(SortPairs(ps))
  }

  function EmitItems(items: seq<Bytes>): Bytes {
    if items == [] then [] else items[0] + EmitItems(items[1..])
  }

  /** `enc_array`. */
  function EncArray(items: seq<Bytes>): Bytes {
    Head(4, |items|) + EmitItems(items)
  }

  /** `enc_array`, appending in a loop. */
  method EncodeArray(items: seq<Bytes>) returns (out: Bytes)
    ensures out == EncArray(items)
  {
    hide Head;
    out := Head(4, |items|);
    for c := 0 to |items|
      invariant out + EmitItems(items[c..]) == EncArray(items)
    {
      assert items[c..][1..] == items[c + 1..];
      assert out + (items[c] + EmitItems(items[c + 1..])) == out + items[c] + EmitItems(items[c + 1..]);
      out := out + items[c];
    }
    assert out + [] == out;
  }

  /** `enc_map`: sort, then append in a loop. */
  method EncodeMap(pairs: seq<(U64, Bytes)>) returns (out: Bytes)
    ensures out == EncMap(pairs)
  {
    hide Head, SortPairs;
    var sorted := SortPairs(pairs);
    SortKeeps(pairs);
    out := Head(5, |sorted|);
    for c := 0 to |sorted|
      invariant out + EmitPairs(sorted[c..]) == EncMap(pairs)
    {
      var (k, v) := sorted[c];
      assert sorted[c..][1..] == sorted[c + 1..];
      var rest := EmitPairs(sorted[c + 1..]);
      assert out + (Head(0, k) + v + rest) == out + (Head(0, k) + v) + rest;
      out := out + (Head(0, k) + v);
    }
    assert out + [] == out;
  }

  /** The values the vector scripts build. */
  datatype Val = VUint(n: U64) | VBytes(b: Bytes) | VArray(a: seq<Val>) | VMap(m: seq<(U64, Val)>)

  function EncVal(v: Val): Bytes {
    match v
    case VUint(n) => Head(0, n)
    case VBytes(b) => Head(2, |b|) + b
    case VArray(a) => EncArray(seq(|a|, i requires 0 <= i < |a| => EncVal(a[i])))
    case VMap(m) => EncMap(seq(|m|, i requires 0 <= i < |m| => (m[i].0, EncVal(m[i].1))))
  }

  /** Lengths fit the 64-bit argument of a head; the scripts fail otherwise. */
  ghost predicate ValFits(v: Val) {
    match v
    case VUint(_) => true
    case VBytes(b) => |b| <= U64_MAX
    case VArray(a) => |a| <= U64_MAX && forall i | 0 <= i < |a| :: ValFits(a[i])
    case VMap(m) => |m| <= U64_MAX && forall i | 0 <= i < |m| :: ValFits(m[i].1)
  }

  // ---------------------------------------------------------------- skipping lands on the end

  /** Wherever these bytes stand, skipping a value lands on their end. */
  ghost predicate Skippable(e: Bytes) {
    forall buf, i: nat | At(buf, i, e) :: SkipValue(buf, i) == Some(i + |e|)
  }

  /** A shortest head is read back. */
  lemma HeadReads(buf: Bytes, i: nat, major: nat, arg: U64)
    requires major < 8 && At(buf, i, Head(major, arg))
    ensures ReadHead(buf, i) == Some(HeadAt(major, arg, i + |Head(major, arg)|))
  {
    E.HeadRead(buf, i, major, arg);
    var ai, w := InfoOf(arg), Width(InfoOf(arg));
    if ai == 24 {
      assert buf[i + 1..i + 2] == [buf[i + 1]];
      OneByte(buf[i + 1]);
    } else if ai > 24 {
      assert Slice(buf, i + 1, w) == buf[i + 1..i + 1 + w];
    }
  }

  lemma {:induction false} ItemsSkip(items: seq<Bytes>, buf: Bytes, i: nat)
    requires (forall e | e in items :: Skippable(e)) && At(buf, i, EmitItems(items))
    ensures SkipMany(buf, i, |items|) == Some(i + |EmitItems(items)|)
  {
    hide SkipValue;
    if items != [] {
      AtConcat(buf, i, items[0], EmitItems(items[1..]));
      assert items[0] in items;
      assert SkipValue(buf, i) == Some(i + |items[0]|);
      ItemsSkip(items[1..], buf, i + |items[0]|);
    }
  }

  lemma KeySkips(k: U64)
    ensures Skippable(Head(0, k))
  {
    hide Head;
    forall buf, i: nat | At(buf, i, Head(0, k))
      ensures SkipValue(buf, i) == Some(i + |Head(0, k)|)
    {
      HeadReads(buf, i, 0, k);
    }
  }

  lemma {:induction false} PairsSkip(ps: seq<(U64, Bytes)>, buf: Bytes, i: nat)
    requires (forall p | p in ps :: Skippable(p.1)) && At(buf, i, EmitPairs(ps))
    ensures SkipMany(buf, i, 2 * |ps|) == Some(i + |EmitPairs(ps)|)
  {
    hide SkipValue, SkipMany, Head, Skippable;
    if ps == [] {
      SkipNext(buf, i, 0);
    } else {
      var k, e, rest := Head(0, ps[0].0), ps[0].1, ps[1..];
      AtConcat(buf, i, k, e);
      AtConcat(buf, i, k + e, EmitPairs(rest));
      KeySkips(ps[0].0);
      assert ps[0] in ps;
      SkipAt(k, buf, i);
      SkipAt(e, buf, i + |k|);
      SkipNext(buf, i, 2 * |ps| - 1);
      SkipNext(buf, i + |k|, 2 * |ps| - 2);
      PairsSkip(rest, buf, i + |k| + |e|);
    }
  }

  lemma ArraySkips(items: seq<Bytes>)
    requires |items| <= U64_MAX && forall e | e in items :: Skippable(e)
    ensures Skippable(EncArray(items))
  {
    hide Head, Skippable;
    var e := EncArray(items);
    forall buf, i: nat | At(buf, i, e)
      ensures SkipValue(buf, i) == Some(i + |e|)
    {
      AtConcat(buf, i, Head(4, |items|), EmitItems(items));
      HeadReads(buf, i, 4, |items|);
      ItemsSkip(items, buf, i + |Head(4, |items|)|);
    }
    SkippableIntro(e);
  }

  lemma SkippableIntro(e: Bytes)
    requires forall buf, i: nat | At(buf, i, e) :: SkipValue(buf, i) == Some(i + |e|)
    ensures Skippable(e)
  {
  }

  lemma SortKeeps(ps: seq<(U64, Bytes)>)
    ensures |SortPairs(ps)| == |ps| && forall p :: p in SortPairs(ps) <==> p in ps
  {
    hide SortPairs;
    var sorted := SortPairs(ps);
    assert |multiset(sorted)| == |multiset(ps)|;
    forall p
      ensures p in sorted <==> p in ps
    {
      assert p in sorted <==> p in multiset(sorted);
      assert p in ps <==> p in multiset(ps);
    }
  }

  lemma MapSkips(ps: seq<(U64, Bytes)>)
    requires |ps| <= U64_MAX && forall p | p in ps :: Skippable(p.1)
    ensures Skippable(EncMap(ps))
  {
    hide Head, Skippable, SortPairs, EmitPairs, SkipMany;
    var e, sorted := EncMap(ps), SortPairs(ps);
    SortKeeps(ps);
    forall buf, i: nat | At(buf, i, e)
      ensures SkipValue(buf, i) == Some(i + |e|)
    {
      AtConcat(buf, i, Head(5, |ps|), EmitPairs(sorted));
      HeadReads(buf, i, 5, |ps|);
      PairsSkip(sorted, buf, i + |Head(5, |ps|)|);
    }
    SkippableIntro(e);
  }

  /** Skipping lands exactly on the end of every encoded value, nested to any depth. */
  lemma {:induction false} ValSkips(v: Val)
    requires ValFits(v)
    ensures Skippable(EncVal(v))
  {
    hide Skippable, Head;
    match v {
      case VUint(n) =>
        KeySkips(n);
      case VBytes(b) =>
        BytesSkip(b);
      case VArray(a) =>
        var items := seq(|a|, i requires 0 <= i < |a| => EncVal(a[i]));
        forall e | e in items
          ensures Skippable(e)
        {
          var i :| 0 <= i < |a| && items[i] == e;
          ValSkips(a[i]);
        }
        ArraySkips(items);
      case VMap(m) =>
        var ps := seq(|m|, i requires 0 <= i < |m| => (m[i].0, EncVal(m[i].1)));
        forall p | p in ps
          ensures Skippable(p.1)
        {
          var i :| 0 <= i < |m| && ps[i] == p;
          ValSkips(m[i].1);
        }
        MapSkips(ps);
    }
  }

  lemma BytesSkip(b: Bytes)
    requires |b| <= U64_MAX
    ensures Skippable(Head(2, |b|) + b)
  {
    hide Head;
    var e := Head(2, |b|) + b;
    forall buf, i: nat | At(buf, i, e)
      ensures SkipValue(buf, i) == Some(i + |e|)
    {
      AtConcat(buf, i, Head(2, |b|), b);
      HeadReads(buf, i, 2, |b|);
    }
  }

  // ---------------------------------------------------------------- splicing equals re-encoding

  type Entries = map<U64, Bytes>

  ghost predicate DistinctPairs(ps: seq<(U64, Bytes)>) {
    forall x, y | 0 <= x < y < |ps| :: ps[x].0 != ps[y].0
  }

  /** The entries of a list with distinct keys. */
  function EntriesOf(ps: seq<(U64, Bytes)>): (m: Entries)
    ensures forall k :: k in m <==> exists i :: 0 <= i < |ps| && ps[i].0 == k
  {
    if ps == [] then map[]
    else
      assert ps == [ps[0]] + ps[1..];
      EntriesOf(ps[1..])[ps[0].0 := ps[0].1]
  }

  /** The list without one key. */
  function Without(ps: seq<(U64, Bytes)>, d: nat): seq<(U64, Bytes)> {
    if ps == [] then [] else (if ps[0].0 == d then [] else [ps[0]]) + Without(ps[1..], d)
  }

  function Emit(m: Entries, ks: seq<nat>): Bytes
    requires forall k | k in ks :: k in m
  {
    if ks == [] then []
    else
      assert ks[0] in ks;
      Head(0, ks[0]) + m[ks[0]] + Emit(m, ks[1..])
  }

  /** A map as its entries under ascending keys. */
  ghost function EncEntries(m: Entries): Bytes {
    var keys: set<nat> := m.Keys;
    Head(5, |m|) + Emit(m, Ascend(keys))
  }

  /** The keys of an entry list. */
  function KeysOf(ps: seq<(U64, Bytes)>): (ks: seq<nat>)
    ensures |ks| == |ps| && forall i | 0 <= i < |ps| :: ks[i] == ps[i].0
  {
    seq(|ps|, i requires 0 <= i < |ps| => ps[i].0)
  }

  ghost predicate SortedPairs(ps: seq<(U64, Bytes)>) {
    forall x, y | 0 <= x < y < |ps| :: ps[x].0 <= ps[y].0
  }

  lemma InsertedAbove(p: (U64, Bytes), ps: seq<(U64, Bytes)>)
    requires SortedPairs(ps) && ps != [] && p.0 > ps[0].0
    ensures forall y | 0 <= y < |InsertPair(p, ps[1..])| :: ps[0].0 <= InsertPair(p, ps[1..])[y].0
  {
    hide InsertPair;
    var r := InsertPair(p, ps[1..]);
    forall y | 0 <= y < |r|
      ensures ps[0].0 <= r[y].0
    {
      assert r[y] in multiset(r);
      assert r[y] != p ==> r[y] in ps[1..];
    }
  }

  lemma {:induction false} InsertPairSorted(p: (U64, Bytes), ps: seq<(U64, Bytes)>)
    requires SortedPairs(ps)
    ensures SortedPairs(InsertPair(p, ps))
  {
    if ps != [] && p.0 > ps[0].0 {
      InsertPairSorted(p, ps[1..]);
      InsertedAbove(p, ps);
      assert InsertPair(p, ps) == [ps[0]] + InsertPair(p, ps[1..]);
    }
  }

  lemma {:induction false} SortPairsSorted(ps: seq<(U64, Bytes)>)
    ensures SortedPairs(SortPairs(ps))
  {
    if ps != [] {
      SortPairsSorted(ps[1..]);
      InsertPairSorted(ps[0], SortPairs(ps[1..]));
    }
  }

  /** Lookup in the entries of a list with distinct keys. */
  lemma {:induction false} EntriesLookup(ps: seq<(U64, Bytes)>, i: nat)
    requires DistinctPairs(ps) && i < |ps|
    ensures ps[i].0 in EntriesOf(ps) && EntriesOf(ps)[ps[i].0] == ps[i].1
  {
    if i > 0 {
      EntriesLookup(ps[1..], i - 1);
      assert ps[i] == ps[1..][i - 1];
    }
  }

  /** Entries and their lists: same pairs, same number. */
  lemma {:induction false} EntriesSize(ps: seq<(U64, Bytes)>)
    requires DistinctPairs(ps)
    ensures |EntriesOf(ps)| == |ps|
  {
    if ps != [] {
      EntriesSize(ps[1..]);
      var m := EntriesOf(ps[1..]);
      forall i | 0 <= i < |ps[1..]|
        ensures ps[1..][i].0 != ps[0].0
      {
        assert ps[1..][i] == ps[i + 1];
      }
      assert ps[0].0 !in m;
      assert EntriesOf(ps).Keys == m.Keys + {ps[0].0};
    }
  }

  /** Emitting sorted pairs is emitting their entries under their keys. */
  lemma {:induction false} EmitSame(qs: seq<(U64, Bytes)>, m: Entries)
    requires forall i | 0 <= i < |qs| :: qs[i].0 in m && m[qs[i].0] == qs[i].1
    ensures (forall k | k in KeysOf(qs) :: k in m) && EmitPairs(qs) == Emit(m, KeysOf(qs))
  {
    hide Head;
    if qs != [] {
      EmitSame(qs[1..], m);
      assert KeysOf(qs)[1..] == KeysOf(qs[1..]);
    }
  }

  /** The simple encoder on a list with distinct keys depends on the entries only. */
  lemma EncMapIsEntries(ps: seq<(U64, Bytes)>)
    requires DistinctPairs(ps)
    ensures EncMap(ps) == EncEntries(EntriesOf(ps))
  {
    hide Head, Emit, EmitPairs, SortPairs, EntriesOf;
    var qs, m := SortPairs(ps), EntriesOf(ps);
    SortPairsSorted(ps);
    SortKeepsPairs(ps);
    EntriesSize(ps);
    forall i | 0 <= i < |qs|
      ensures qs[i].0 in m && m[qs[i].0] == qs[i].1
    {
      assert qs[i] in qs;
      var j :| 0 <= j < |ps| && ps[j] == qs[i];
      EntriesLookup(ps, j);
    }
    EmitSame(qs, m);
    var keys: set<nat> := m.Keys;
    forall k
      ensures k in KeysOf(qs) <==> k in keys
    {
      if k in KeysOf(qs) {
        var i :| 0 <= i < |qs| && KeysOf(qs)[i] == k;
      }
      if k in keys {
        var j :| 0 <= j < |ps| && ps[j].0 == k;
        assert ps[j] in qs;
        var i :| 0 <= i < |qs| && qs[i] == ps[j];
        assert KeysOf(qs)[i] == k;
      }
    }
    AscendUnique(KeysOf(qs), keys);
  }

  /** Sorting keeps exactly the pairs, still with distinct and now strictly ascending keys. */
  lemma SortKeepsPairs(ps: seq<(U64, Bytes)>)
    requires DistinctPairs(ps)
    ensures forall p :: p in SortPairs(ps) <==> p in ps
    ensures forall x, y | 0 <= x < y < |SortPairs(ps)| :: SortPairs(ps)[x].0 < SortPairs(ps)[y].0
  {
    hide SortPairs;
    var qs := SortPairs(ps);
    SortPairsSorted(ps);
    SortKeeps(ps);
    forall x, y | 0 <= x < y < |qs|
      ensures qs[x].0 < qs[y].0
    {
      if qs[x].0 == qs[y].0 {
        assert qs[x] in ps && qs[y] in ps;
        var i :| 0 <= i < |ps| && ps[i] == qs[x];
        var j :| 0 <= j < |ps| && ps[j] == qs[y];
        OnceOnly(ps, i);
        TwiceAtLeast(qs, x, y);
      }
    }
  }

  lemma TwiceAtLeast(qs: seq<(U64, Bytes)>, x: nat, y: nat)
    requires x < y < |qs| && qs[x] == qs[y]
    ensures multiset(qs)[qs[x]] >= 2
  {
    assert qs == qs[..y] + qs[y..];
    assert qs[x] in qs[..y] && qs[y] in qs[y..];
    assert multiset(qs) == multiset(qs[..y]) + multiset(qs[y..]);
  }

  lemma OnceOnly(ps: seq<(U64, Bytes)>, i: nat)
    requires DistinctPairs(ps) && i < |ps|
    ensures multiset(ps)[ps[i]] == 1
  {
    assert ps == ps[..i] + [ps[i]] + ps[i + 1..];
    assert ps[i] !in ps[..i] && ps[i] !in ps[i + 1..];
  }

  /** A scan that started with `spans` added exactly the spans of the entries of these keys. */
  ghost predicate Found(m: Entries, ks: seq<nat>, buf: Bytes, spans: Spans, r: Spans)
    requires forall k | k in ks :: k in m
  {
    && (forall k :: k in r <==> k in spans || k in ks)
    && (forall k | k in ks :: SpanOf(buf, r[k], Head(0, k) + m[k]))
    && (forall k | k in spans && k !in ks :: r[k] == spans[k])
  }

  lemma FoundCons(m: Entries, ks: seq<nat>, buf: Bytes, span: (nat, nat), spans: Spans, r: Spans)
    requires ks != [] && (forall k | k in ks :: k in m) && ks[0] !in ks[1..]
    requires SpanOf(buf, span, Head(0, ks[0]) + m[ks[0]])
    requires Found(m, ks[1..], buf, spans[ks[0] := span], r)
    ensures Found(m, ks, buf, spans, r)
  {
    hide Head, SpanOf;
    var k, rest := ks[0], ks[1..];
    assert forall x :: x in ks <==> x == k || x in rest by {
      assert ks == [k] + rest;
    }
    assert r[k] == span;
  }

  lemma SpansStep(buf: Bytes, i: nat, n: nat, spans: Spans, k: nat, j: nat, end: nat)
    requires n > 0 && ReadHead(buf, i) == Some(HeadAt(0, k, j)) && SkipValue(buf, j) == Some(end)
    ensures SpansFrom(buf, i, n, spans) == SpansFrom(buf, end, n - 1, spans[k := (i, end)])
  {
    hide ReadHead, SkipValue;
  }

  /** The scan over ascending entries finds, for each key, the span of exactly its entry. */
  lemma {:induction false} SpansFound(m: Entries, ks: seq<nat>, buf: Bytes, i: nat, spans: Spans)
    requires (forall k | k in ks :: k in m && Skippable(m[k])) && At(buf, i, Emit(m, ks))
    requires forall x, y | 0 <= x < y < |ks| :: ks[x] < ks[y]
    ensures SpansFrom(buf, i, |ks|, spans).Some? && Found(m, ks, buf, spans, SpansFrom(buf, i, |ks|, spans).value)
    decreases |ks|
  {
    hide Head, SkipValue, Skippable, SpanOf, ReadHead, Found, SpansFrom, At;
    if ks == [] {
      NoSpans(m, buf, i, spans);
    } else {
      var k, rest := ks[0], ks[1..];
      assert k in ks && forall x | x in rest :: x in ks;
      var h, e := Head(0, k), m[k];
      AtConcat(buf, i, h, e);
      AtConcat(buf, i, h + e, Emit(m, rest));
      HeadReads(buf, i, 0, k);
      SkipAt(e, buf, i + |h|);
      var end := i + |h| + |e|;
      SpansFound(m, rest, buf, end, spans[k := (i, end)]);
      SpanThere(buf, i, h + e);
      SpansStep(buf, i, |ks|, spans, k, i + |h|, end);
      FoundCons(m, ks, buf, (i, end), spans, SpansFrom(buf, i, |ks|, spans).value);
    }
  }

  lemma NoSpans(m: Entries, buf: Bytes, i: nat, spans: Spans)
    ensures SpansFrom(buf, i, 0, spans) == Some(spans) && Found(m, [], buf, spans, spans)
  {
  }

  /** A span that covers exactly these bytes. */
  ghost predicate SpanOf(buf: Bytes, span: (nat, nat), e: Bytes) {
    span.1 == span.0 + |e| && At(buf, span.0, e)
  }

  lemma SpanThere(buf: Bytes, i: nat, e: Bytes)
    requires At(buf, i, e)
    ensures SpanOf(buf, (i, i + |e|), e)
  {
  }

  lemma SkipAt(e: Bytes, buf: Bytes, i: nat)
    requires Skippable(e) && At(buf, i, e)
    ensures SkipValue(buf, i) == Some(i + |e|)
  {
  }

  /** Gathering the spans of some keys emits their entries. */
  lemma {:induction false} GatherEmits(m: Entries, ks: seq<nat>, buf: Bytes, spans: Spans)
    requires forall k | k in ks :: k in m && k in spans && SpanOf(buf, spans[k], Head(0, k) + m[k])
    ensures Gather(buf, spans, ks) == Emit(m, ks)
  {
    hide Head;
    if ks != [] {
      var k := ks[0];
      assert k in ks;
      var (s, e) := spans[k];
      SliceSpan(buf, s, Head(0, k) + m[k]);
      assert SpanBytes(buf, spans[k]) == Head(0, k) + m[k];
      GatherEmits(m, ks[1..], buf, spans);
    }
  }

  lemma SliceSpan(buf: Bytes, s: nat, e: Bytes)
    requires At(buf, s, e)
    ensures Slice(buf, s, |e|) == e
  {
  }

  /** Splicing a key out of an encoded map is encoding the map without it. */
  lemma StripEntries(m: Entries, d: nat)
    requires |m| <= U64_MAX && forall k | k in m :: Skippable(m[k])
    ensures Stripped(EncEntries(m), d) == Some(EncEntries(m - (set k: U64 | k in m && k == d)))
  {
    hide Head, Emit, Skippable, SpanOf, Gather, MapSpans, EncEntries, Ascend, SkipValue, SkipMany, ReadHead;
    var buf, left := EncEntries(m), m - (set k: U64 | k in m && k == d);
    var spans := SpansOfEncoded(m);
    var keys: set<nat>, leftKeys: set<nat> := m.Keys, left.Keys;
    assert keys - {d} == leftKeys;
    KeyCount(left);
    GatherEmits(left, Ascend(leftKeys), buf, spans);
    EncodedEntries(left);
  }

  lemma EncodedEntries(m: Entries)
    ensures var keys: set<nat> := m.Keys; EncEntries(m) == Head(5, |m|) + Emit(m, Ascend(keys))
  {
  }

  /** Scanning an encoded map finds the span of every entry. */
  lemma SpansOfEncoded(m: Entries) returns (spans: Spans)
    requires |m| <= U64_MAX && forall k | k in m :: Skippable(m[k])
    ensures MapSpans(EncEntries(m)) == Some(spans)
    ensures var keys: set<nat> := m.Keys; spans.Keys == keys
    ensures forall k | k in m :: SpanOf(EncEntries(m), spans[k], Head(0, k) + m[k])
  {
    hide Head, Emit, Skippable, SpanOf, SpansFrom, ReadHead, Ascend;
    var buf := EncEntries(m);
    var keys: set<nat> := m.Keys;
    var ks := Ascend(keys);
    KeyCount(m);
    assert buf[0..|buf|] == buf;
    AtConcat(buf, 0, Head(5, |m|), Emit(m, ks));
    HeadReads(buf, 0, 5, |m|);
    SpansFound(m, ks, buf, |Head(5, |m|)|, map[]);
    spans := MapSpans(buf).value;
    assert spans.Keys == keys;
  }

  lemma KeyCount(m: Entries)
    ensures var keys: set<nat> := m.Keys; |keys| == |m|
  {
    var keys: set<nat> := m.Keys;
    assert keys == m.Keys;
  }

  lemma WithoutEntries(ps: seq<(U64, Bytes)>, d: nat)
    requires DistinctPairs(ps)
    ensures DistinctPairs(Without(ps, d))
    ensures EntriesOf(Without(ps, d)) == EntriesOf(ps) - (set k: U64 | k in EntriesOf(ps) && k == d)
  {
    hide EntriesOf, Without, DistinctPairs;
    WithoutPairs(ps, d);
    var m, n := EntriesOf(ps) - (set k: U64 | k in EntriesOf(ps) && k == d), EntriesOf(Without(ps, d));
    forall k: U64
      ensures k in m <==> k in n
      ensures k in m && k in n ==> m[k] == n[k]
    {
      WithoutLookup(ps, d, k);
    }
  }

  /** The list without a key has every other entry, unchanged. */
  lemma WithoutLookup(ps: seq<(U64, Bytes)>, d: nat, k: U64)
    requires DistinctPairs(ps)
    ensures k in EntriesOf(Without(ps, d)) <==> k in EntriesOf(ps) && k != d
    ensures k in EntriesOf(Without(ps, d)) ==> EntriesOf(Without(ps, d))[k] == EntriesOf(ps)[k]
  {
    hide EntriesOf, Without, DistinctPairs;
    WithoutPairs(ps, d);
    var ws := Without(ps, d);
    if i :| 0 <= i < |ws| && ws[i].0 == k {
      assert ws[i] in ws;
      var j :| 0 <= j < |ps| && ps[j] == ws[i];
      EntriesLookup(ws, i);
      EntriesLookup(ps, j);
    }
    if k in EntriesOf(ps) && k != d {
      var j :| 0 <= j < |ps| && ps[j].0 == k;
      assert ps[j] in ws;
    }
  }

  lemma {:induction false} WithoutPairs(ps: seq<(U64, Bytes)>, d: nat)
    requires DistinctPairs(ps)
    ensures DistinctPairs(Without(ps, d))
    ensures forall p :: p in Without(ps, d) <==> p in ps && p.0 != d
  {
    if ps != [] {
      WithoutPairs(ps[1..], d);
      var rest := Without(ps[1..], d);
      assert ps == [ps[0]] + ps[1..];
      forall i | 0 <= i < |rest|
        ensures rest[i].0 != ps[0].0
      {
        assert rest[i] in rest;
        var j :| 0 <= j < |ps[1..]| && ps[1..][j] == rest[i];
        assert ps[j + 1] == rest[i];
      }
    }
  }

  /**
   Splicing equals re-encoding: for any list of distinct integer keys with encoded values, stripping a key
   from the encoded map gives exactly the encoding of the list without that key.
   */
  lemma SpliceIsReencode(ps: seq<(U64, Val)>, d: nat)
    requires |ps| <= U64_MAX && (forall i | 0 <= i < |ps| :: ValFits(ps[i].1))
    requires forall x, y | 0 <= x < y < |ps| :: ps[x].0 != ps[y].0
    ensures Stripped(EncMap(Encoded(ps)), d) == Some(EncMap(Without(Encoded(ps), d)))
  {
    hide Stripped, EncEntries, EncMap, EntriesOf, Skippable, EncVal;
    var qs := Encoded(ps);
    var m := EntriesOf(qs);
    assert DistinctPairs(qs);
    EncMapIsEntries(qs);
    EntriesSize(qs);
    forall k | k in m
      ensures Skippable(m[k])
    {
      var i :| 0 <= i < |qs| && qs[i].0 == k;
      EntriesLookup(qs, i);
      ValSkips(ps[i].1);
    }
    StripEntries(m, d);
    WithoutEntries(qs, d);
    EncMapIsEntries(Without(qs, d));
  }

  /** The pairs as `enc_map` takes them: values already encoded. */
  function Encoded(ps: seq<(U64, Val)>): (qs: seq<(U64, Bytes)>)
    ensures |qs| == |ps| && forall i | 0 <= i < |ps| :: qs[i] == (ps[i].0, EncVal(ps[i].1))
  {
    seq(|ps|, i requires 0 <= i < |ps| => (ps[i].0, EncVal(ps[i].1)))
  }
}
