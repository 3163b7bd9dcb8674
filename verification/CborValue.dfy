/** The value type of the canonical codec and its deterministic encoding. */
module CborValue {
  import opened Prelude
  import opened CborBytes

  predicate Continuation(x: Byte) {
    0x80 <= x <= 0xBF
  }

  /** What `str::from_utf8` accepts: the well-formed byte sequences of the Unicode Standard, table 3-7. */
  predicate ValidUtf8(s: Bytes) {
    if s == [] then true
    else if s[0] <= 0x7F then ValidUtf8(s[1..])
    else if 0xC2 <= s[0] <= 0xDF then |s| >= 2 && Continuation(s[1]) && ValidUtf8(s[2..])
    else if 0xE0 <= s[0] <= 0xEF then
      && |s| >= 3 && Continuation(s[1]) && Continuation(s[2])
      && (s[0] == 0xE0 ==> s[1] >= 0xA0) && (s[0] == 0xED ==> s[1] <= 0x9F)
      && ValidUtf8(s[3..])
    else if 0xF0 <= s[0] <= 0xF4 then
      && |s| >= 4 && Continuation(s[1]) && Continuation(s[2]) && Continuation(s[3])
      && (s[0] == 0xF0 ==> s[1] >= 0x90) && (s[0] == 0xF4 ==> s[1] <= 0x8F)
      && ValidUtf8(s[4..])
    else false
  }

  /** A Rust `String`, as its UTF-8 bytes. */
  type Str = s: Bytes | ValidUtf8(s)

  datatype Cv =
    | Uint(n: U64)
    | Bstr(b: Bytes)
    | Text(s: Str)
    | Bool(f: bool)
    | Array(a: seq<Cv>)
    | Map(m: seq<(U64, Cv)>)
    | TextMap(t: seq<(Str, Cv)>)

  predicate IsMap(v: Cv) {
    v.Map? || v.TextMap?
  }

  /** Number of entries of a map of either kind. */
  function Count(v: Cv): nat
    requires IsMap(v)
  {
    if v.Map? then |v.m| else |v.t|
  }

  /** The key of entry `i`, as the value it is on the wire. */
  function KeyAt(v: Cv, i: nat): Cv
    requires IsMap(v) && i < Count(v)
  {
    if v.Map? then Uint(v.m[i].0) else Text(v.t[i].0)
  }

  function ValAt(v: Cv, i: nat): (x: Cv)
    requires IsMap(v) && i < Count(v)
    ensures x < v
  {
    if v.Map? then v.m[i].1 else v.t[i].1
  }

  /** Every length fits the 64-bit argument of a head, as the length of any Rust `Vec` does. */
  ghost predicate Fits(v: Cv) {
    match v
    case Uint(_) => true
    case Bool(_) => true
    case Bstr(b) => |b| <= U64_MAX
    case Text(s) => |s| <= U64_MAX
    case Array(a) => |a| <= U64_MAX && forall i | 0 <= i < |a| :: Fits(a[i])
    case Map(m) => |m| <= U64_MAX && forall i | 0 <= i < |m| :: Fits(m[i].1)
    case TextMap(t) => |t| <= U64_MAX && forall i | 0 <= i < |t| :: |t[i].0| <= U64_MAX && Fits(t[i].1)
  }

  // ---------------------------------------------------------------- heads

  /** The additional information of the shortest head for `arg`. */
  function InfoOf(arg: nat): (ai: nat)
    ensures ai <= 27
  {
    if arg < 24 then arg
    else if arg <= 0xFF then 24
    else if arg <= 0xFFFF then 25
    else if arg <= 0xFFFF_FFFF then 26
    else 27
  }

  /** How many argument bytes follow a head with this additional information. */
  function Width(ai: nat): nat {
    if ai < 24 then 0 else if ai == 24 then 1 else if ai == 25 then 2 else if ai == 26 then 4 else 8
  }

  function Head(major: nat, arg: nat): (h: Bytes)
    requires major < 8
    ensures |h| == 1 + Width(InfoOf(arg))
  {
    [32 * major + InfoOf(arg)] + BigEndian(arg, Width(InfoOf(arg)))
  }

  /** Shortest heads of unsigned keys sort as the keys do. */
  lemma HeadOrder(u: U64, v: U64)
    ensures u < v <==> Lt(Head(0, u), Head(0, v))
  {
    if u < v {
      HeadAscends(u, v);
    } else if v < u {
      HeadAscends(v, u);
      if Lt(Head(0, u), Head(0, v)) {
        LtTransitive(Head(0, u), Head(0, v), Head(0, u));
        LtIrreflexive(Head(0, u));
      }
    } else {
      LtIrreflexive(Head(0, u));
    }
  }

  lemma HeadAscends(u: U64, v: U64)
    requires u < v
    ensures Lt(Head(0, u), Head(0, v))
  {
    if InfoOf(u) == InfoOf(v) {
      var ai := InfoOf(u);
      assert ai >= 24;
      Pow256Values();
      BigEndianOrder(u, v, Width(ai));
      LtPrefix([ai], BigEndian(u, Width(ai)), BigEndian(v, Width(ai)));
    }
  }

  // ---------------------------------------------------------------- encoding

  /** The encoding of a map key. */
  function KeyBytes(v: Cv, i: nat): Bytes
    requires IsMap(v) && i < Count(v)
  {
    if v.Map? then Head(0, v.m[i].0) else Head(3, |v.t[i].0|) + v.t[i].0
  }

  function Keys(v: Cv): (ks: seq<Bytes>)
    requires IsMap(v)
    ensures |ks| == Count(v)
  {
    seq(Count(v), i requires 0 <= i < Count(v) => KeyBytes(v, i))
  }

  function Insert(keys: seq<Bytes>, i: nat, order: seq<nat>): (r: seq<nat>)
    requires i < |keys| && forall j | 0 <= j < |order| :: order[j] < |keys|
    ensures forall j | 0 <= j < |r| :: r[j] < |keys|
    ensures |r| == |order| + 1
  {
    if order == [] || !Lt(keys[order[0]], keys[i]) then [i] + order
    else [order[0]] + Insert(keys, i, order[1..])
  }

  /** The stable sort of the indices `i..` by their keys. */
  function OrderFrom(keys: seq<Bytes>, i: nat): (r: seq<nat>)
    requires i <= |keys|
    ensures |r| == |keys| - i && forall j | 0 <= j < |r| :: r[j] < |keys|
    decreases |keys| - i
  {
    if i == |keys| then [] else Insert(keys, i, OrderFrom(keys, i + 1))
  }

  /** The order in which the entries of a map go on the wire. */
  function Order(v: Cv): (r: seq<nat>)
    requires IsMap(v)
    ensures |r| == Count(v) && forall j | 0 <= j < |r| :: r[j] < Count(v)
  {
    OrderFrom(Keys(v), 0)
  }

  /** Deterministic CBOR. */
  function Encode(v: Cv): Bytes
    decreases v, 1, 0
  {
    match v
    case Uint(n) => Head(0, n)
    case Bstr(b) => Head(2, |b|) + b
    case Text(s) => Head(3, |s|) + s
    case Bool(f) => [if f then 0xF5 else 0xF4]
    case Array(a) => Head(4, |a|) + EncodeItems(v, 0)
    case Map(m) => Head(5, |m|) + EncodeEntries(v, Order(v))
    case TextMap(t) => Head(5, |t|) + EncodeEntries(v, Order(v))
  }

  /** The items of an array from index `i` on. */
  function EncodeItems(v: Cv, i: nat): Bytes
    requires v.Array? && i <= |v.a|
    decreases v, 0, |v.a| - i
  {
    if i == |v.a| then [] else Encode(v.a[i]) + EncodeItems(v, i + 1)
  }

  /** The entries of a map, key before value, in the given order. */
  function EncodeEntries(v: Cv, order: seq<nat>): Bytes
    requires IsMap(v) && forall j | 0 <= j < |order| :: order[j] < Count(v)
    decreases v, 0, |order|
  {
    if order == [] then []
    else KeyBytes(v, order[0]) + Encode(ValAt(v, order[0])) + EncodeEntries(v, order[1..])
  }

  // ---------------------------------------------------------------- properties of the order

  ghost predicate Ascending(keys: seq<Bytes>, order: seq<nat>)
    requires forall j | 0 <= j < |order| :: order[j] < |keys|
  {
    forall x, y | 0 <= x < y < |order| :: !Lt(keys[order[y]], keys[order[x]])
  }

  /** Indices with equal keys stay in their original order. */
  ghost predicate Stable(keys: seq<Bytes>, order: seq<nat>)
    requires forall j | 0 <= j < |order| :: order[j] < |keys|
  {
    forall x, y | 0 <= x < y < |order| :: !Lt(keys[order[x]], keys[order[y]]) ==> order[x] < order[y]
  }

  /** Insertion adds exactly the new index. */
  lemma {:induction false} InsertPermutes(keys: seq<Bytes>, i: nat, order: seq<nat>)
    requires i < |keys| && forall j | 0 <= j < |order| :: order[j] < |keys|
    ensures multiset(Insert(keys, i, order)) == multiset(order) + multiset{i}
  {
    if order != [] {
      assert order == [order[0]] + order[1..];
      InsertPermutes(keys, i, order[1..]);
    }
  }

  /** Insertion keeps the order sorted. */
  lemma {:induction false} InsertSorted(keys: seq<Bytes>, i: nat, order: seq<nat>)
    requires i < |keys| && forall j | 0 <= j < |order| :: order[j] < |keys|
    requires Ascending(keys, order)
    ensures Ascending(keys, Insert(keys, i, order))
  {
    hide Lt;
    if order == [] || !Lt(keys[order[0]], keys[i]) {
      forall y | 0 <= y < |order|
        ensures !Lt(keys[order[y]], keys[i])
      {
        if y > 0 {
          NotLtTransitive(keys[i], keys[order[0]], keys[order[y]]);
        }
      }
    } else {
      var rest := order[1..];
      assert Ascending(keys, rest);
      InsertSorted(keys, i, rest);
      InsertPermutes(keys, i, rest);
      LtAsymmetric(keys[order[0]], keys[i]);
      var r := Insert(keys, i, rest);
      forall y | 0 <= y < |r|
        ensures !Lt(keys[r[y]], keys[order[0]])
      {
        assert r[y] in multiset(r);
        if r[y] != i {
          assert r[y] in rest;
        }
      }
      assert Insert(keys, i, order) == [order[0]] + r;
    }
  }

  /** Insertion of an index below all others keeps equal keys in order. */
  lemma {:induction false} InsertStable(keys: seq<Bytes>, i: nat, order: seq<nat>)
    requires i < |keys| && forall j | 0 <= j < |order| :: i < order[j] < |keys|
    requires Ascending(keys, order) && Stable(keys, order)
    ensures Stable(keys, Insert(keys, i, order))
  {
    hide Lt;
    if order != [] && Lt(keys[order[0]], keys[i]) {
      var rest := order[1..];
      InsertStable(keys, i, rest);
      InsertPermutes(keys, i, rest);
      var r := Insert(keys, i, rest);
      forall y | 0 <= y < |r|
        ensures !Lt(keys[order[0]], keys[r[y]]) ==> order[0] < r[y]
      {
        assert r[y] in multiset(r);
        if r[y] != i {
          assert r[y] in rest;
        }
      }
      assert Insert(keys, i, order) == [order[0]] + r;
    }
  }

  lemma LtAsymmetric(a: Bytes, b: Bytes)
    requires Lt(a, b)
    ensures !Lt(b, a)
  {
    if Lt(b, a) {
      LtTransitive(a, b, a);
      LtIrreflexive(a);
    }
  }

  /** "Not below" composes. */
  lemma NotLtTransitive(a: Bytes, b: Bytes, c: Bytes)
    requires !Lt(b, a) && !Lt(c, b)
    ensures !Lt(c, a)
  {
    if Lt(c, a) {
      LtTotal(b, c);
      if Lt(b, c) {
        LtTransitive(b, c, a);
      }
    }
  }

  lemma OrderNone(keys: seq<Bytes>)
    ensures OrderFrom(keys, |keys|) == [] && Ascending(keys, []) && Stable(keys, [])
  {
  }

  /** The order is a sorted permutation of all indices, with equal keys in their original order. */
  lemma {:induction false} OrderFromSorted(keys: seq<Bytes>, i: nat)
    requires i <= |keys|
    ensures Ascending(keys, OrderFrom(keys, i)) && Stable(keys, OrderFrom(keys, i))
    ensures forall x :: multiset(OrderFrom(keys, i))[x] == if i <= x < |keys| then 1 else 0
    decreases |keys| - i
  {
    hide Lt, Insert, Ascending, Stable;
    if i == |keys| {
      OrderNone(keys);
    } else {
      OrderFromSorted(keys, i + 1);
      var order := OrderFrom(keys, i + 1);
      forall j | 0 <= j < |order|
        ensures i < order[j]
      {
        assert order[j] in multiset(order);
      }
      InsertPermutes(keys, i, order);
      InsertSorted(keys, i, order);
      InsertStable(keys, i, order);
    }
  }
}
