/**
 Reading a decoded integer-keyed map field by field, and the maps that the wire objects build: a list
 of slots under ascending keys, absent optionals omitted.
 */
module CborFields {
  import opened Prelude
  import opened CborBytes
  import opened CborValue
  import opened CborParse
  import opened CborCanon
  import opened CborExact

  type FieldMap = seq<(U64, Cv)>

  /** `Fields::take`: the first value under `k`, and the map without it. */
  function Take(m: FieldMap, k: U64): (Option<Cv>, FieldMap) {
    if m == [] then (None, [])
    else if m[0].0 == k then (Some(m[0].1), m[1..])
    else
      var (x, rest) := Take(m[1..], k);
      (x, [m[0]] + rest)
  }

  /** `Fields::req`. */
  function Req(m: FieldMap, k: U64): Result<(Cv, FieldMap), CborError> {
    var (x, rest) := Take(m, k);
    if x.None? then Err(MissingKey(k)) else Ok((x.value, rest))
  }

  /** `Fields::deny_unknown`. */
  function DenyUnknown(m: FieldMap): Result<(), CborError> {
    if m == [] then Ok(()) else Err(UnknownKey(m[0].0))
  }

  /** `Fields::from_cv`. */
  function FieldsOf(v: Cv): Result<FieldMap, CborError> {
    if v.Map? then Ok(v.m) else Err(TypeMismatch)
  }

  /** `Fields` as the decoders use it: a map emptied in place. */
  class Fields {
    var entries: FieldMap

    constructor (m: FieldMap)
      ensures entries == m
    {
      entries := m;
    }

    /** Finds the first position of `k` and removes it. */
    method TakeField(k: U64) returns (x: Option<Cv>)
      modifies this
      ensures (x, entries) == Take(old(entries), k)
    {
      hide Take;
      ghost var before := entries;
      for i := 0 to |entries|
        invariant entries == before && forall j | 0 <= j < i :: before[j].0 != k
      {
        if entries[i].0 == k {
          TakeThere(before, k, i);
          x := Some(entries[i].1);
          entries := entries[..i] + entries[i + 1..];
          return;
        }
      }
      TakeAbsent(before, k);
      x := None;
    }
  }

  function AsU64(v: Cv): Result<U64, CborError> {
    if v.Uint? then Ok(v.n) else Err(TypeMismatch)
  }

  function AsU8(v: Cv): Result<Byte, CborError> {
    var n :- AsU64(v);
    if n <= 0xFF then Ok(n) else Err(IntRange)
  }

  function AsUint32(v: Cv): Result<U64, CborError> {
    var n :- AsU64(v);
    if n <= 0xFFFF_FFFF then Ok(n) else Err(IntRange)
  }

  function AsBytes(v: Cv): Result<Bytes, CborError> {
    if v.Bstr? then Ok(v.b) else Err(TypeMismatch)
  }

  function AsText(v: Cv): Result<Str, CborError> {
    if v.Text? then Ok(v.s) else Err(TypeMismatch)
  }

  function AsBool(v: Cv): Result<bool, CborError> {
    if v.Bool? then Ok(v.f) else Err(TypeMismatch)
  }

  function AsArray(v: Cv): Result<seq<Cv>, CborError> {
    if v.Array? then Ok(v.a) else Err(TypeMismatch)
  }

  /** `.map(f).transpose()?` on an optional field. */
  function Optional<T>(x: Option<Cv>, f: Cv -> Result<T, CborError>): Result<Option<T>, CborError> {
    if x.None? then Ok(None)
    else
      var v :- f(x.value);
      Ok(Some(v))
  }

  /** `.map(f).collect::<Result<_, _>>()?` on the items of an array. */
  function Collect<T>(vs: seq<Cv>, f: Cv -> Result<T, CborError>): Result<seq<T>, CborError> {
    if vs == [] then Ok([])
    else
      var x :- f(vs[0]);
      var xs :- Collect(vs[1..], f);
      Ok([x] + xs)
  }

  /** Collecting what a function wrote gives back what it wrote. */
  lemma {:induction false} CollectWritten<T>(xs: seq<T>, vs: seq<Cv>, f: Cv -> Result<T, CborError>)
    requires |vs| == |xs| && forall i | 0 <= i < |xs| :: f(vs[i]) == Ok(xs[i])
    ensures Collect(vs, f) == Ok(xs)
  {
    if xs != [] {
      CollectWritten(xs[1..], vs[1..], f);
      assert xs == [xs[0]] + xs[1..];
    }
  }

  // ---------------------------------------------------------------- slots

  /** A field of a wire object: its key, and its value if present. */
  type Slot = (U64, Option<Cv>)

  function Build(slots: seq<Slot>): FieldMap {
    if slots == [] then []
    else (if slots[0].1.Some? then [(slots[0].0, slots[0].1.value)] else []) + Build(slots[1..])
  }

  ghost predicate KeysAscend(slots: seq<Slot>) {
    forall i, j | 0 <= i < j < |slots| :: slots[i].0 < slots[j].0
  }

  /** Every built entry comes from a slot, in order. */
  lemma {:induction false} BuildEntries(slots: seq<Slot>)
    requires KeysAscend(slots)
    ensures forall i, j | 0 <= i < j < |Build(slots)| :: Build(slots)[i].0 < Build(slots)[j].0
    ensures forall i | 0 <= i < |Build(slots)| :: (Build(slots)[i].0, Some(Build(slots)[i].1)) in slots
  {
    if slots != [] {
      BuildEntries(slots[1..]);
      var rest := Build(slots[1..]);
      forall i | 0 <= i < |rest|
        ensures slots[0].0 < rest[i].0
      {
        var j :| 0 <= j < |slots[1..]| && slots[1..][j] == (rest[i].0, Some(rest[i].1));
        assert slots[j + 1].0 == rest[i].0;
      }
    }
  }

  /** Taking the first slot's key yields its value, present or not, and leaves the other slots. */
  lemma TakeSlot(slots: seq<Slot>)
    requires slots != [] && KeysAscend(slots)
    ensures Take(Build(slots), slots[0].0) == (slots[0].1, Build(slots[1..]))
  {
    hide Take;
    var rest := slots[1..];
    if slots[0].1.Some? {
      TakeFirst(slots[0].0, slots[0].1.value, Build(rest));
    } else {
      BuildEntries(rest);
      forall i | 0 <= i < |Build(rest)|
        ensures slots[0].0 < Build(rest)[i].0
      {
        var j :| 0 <= j < |rest| && rest[j] == (Build(rest)[i].0, Some(Build(rest)[i].1));
        assert slots[j + 1].0 == Build(rest)[i].0;
      }
      TakeAbsent(Build(rest), slots[0].0);
      assert Build(slots) == Build(rest);
    }
  }

  lemma TakeFirst(k: U64, x: Cv, m: FieldMap)
    ensures Take([(k, x)] + m, k) == (Some(x), m)
  {
  }

  /** The first entry under a key is the one taken. */
  lemma {:induction false} TakeThere(m: FieldMap, k: U64, i: nat)
    requires i < |m| && m[i].0 == k && forall j | 0 <= j < i :: m[j].0 != k
    ensures Take(m, k) == (Some(m[i].1), m[..i] + m[i + 1..])
  {
    if i == 0 {
      assert m[..0] + m[1..] == m[1..];
    } else {
      TakeThere(m[1..], k, i - 1);
      assert m[..i] + m[i + 1..] == [m[0]] + (m[1..][..i - 1] + m[1..][i..]);
    }
  }

  lemma {:induction false} TakeAbsent(m: FieldMap, k: U64)
    requires forall i | 0 <= i < |m| :: m[i].0 != k
    ensures Take(m, k) == (None, m)
  {
    if m != [] {
      TakeAbsent(m[1..], k);
      assert m == [m[0]] + m[1..];
    }
  }

  /** Slots under the same ascending keys are determined by the map they build. */
  lemma {:induction false} BuildInjective(s: seq<Slot>, t: seq<Slot>)
    requires |s| == |t| && KeysAscend(s) && KeysAscend(t)
    requires forall i | 0 <= i < |s| :: s[i].0 == t[i].0
    requires Build(s) == Build(t)
    ensures s == t
  {
    if s != [] {
      TakeSlot(s);
      TakeSlot(t);
      BuildInjective(s[1..], t[1..]);
      assert s == [s[0]] + s[1..] && t == [t[0]] + t[1..];
    }
  }

  function NormalSlots(slots: seq<Slot>): (r: seq<Slot>)
    ensures |r| == |slots|
  {
    seq(|slots|, i requires 0 <= i < |slots| =>
      (slots[i].0, if slots[i].1.None? then None else Some(Normal(slots[i].1.value))))
  }

  /** A map built from ascending slots is in wire order: normalising only touches the values. */
  lemma NormalBuild(slots: seq<Slot>)
    requires KeysAscend(slots)
    ensures Normal(Map(Build(slots))) == Map(Build(NormalSlots(slots)))
  {
    hide Normal, OrderFrom, MapOf, Head;
    var v := Map(Build(slots));
    BuildEntries(slots);
    BuiltOrder(v);
    NormalEntriesBuilt(slots);
    NormalIsMapOf(v);
    var es := NormalEntries(v);
    var w := Map(Build(NormalSlots(slots)));
    forall i | 0 <= i < |es|
      ensures es[i] == (Uint(w.m[i].0), w.m[i].1)
    {
    }
    MapOfInts(es, w.m);
  }

  lemma NormalIsMapOf(v: Cv)
    requires v.Map?
    ensures Normal(v) == MapOf(NormalEntries(v))
  {
  }

  /** Ascending integer keys are already in wire order. */
  lemma BuiltOrder(v: Cv)
    requires v.Map? && forall i, j | 0 <= i < j < |v.m| :: v.m[i].0 < v.m[j].0
    ensures StrictlyAscending(Keys(v)) && Order(v) == Identity(0, |v.m|)
  {
    hide Lt, Head, OrderFrom;
    forall i, j | 0 <= i < j < |v.m|
      ensures Lt(Keys(v)[i], Keys(v)[j])
    {
      HeadOrder(v.m[i].0, v.m[j].0);
    }
    StrictIsNonDescending(Keys(v));
    OrderOfAscending(Keys(v), 0);
  }

  /** Normalising slot by slot normalises entry by entry. */
  lemma {:induction false} NormalEntriesBuilt(slots: seq<Slot>)
    ensures |Build(NormalSlots(slots))| == |Build(slots)|
    ensures forall i | 0 <= i < |Build(slots)| ::
      Build(NormalSlots(slots))[i] == (Build(slots)[i].0, Normal(Build(slots)[i].1))
  {
    hide Normal;
    if slots != [] {
      NormalEntriesBuilt(slots[1..]);
      assert NormalSlots(slots)[1..] == NormalSlots(slots[1..]);
    }
  }

  /** A built map can be decoded exactly if its slots' values can. */
  lemma DecodableBuild(slots: seq<Slot>, d: nat)
    requires KeysAscend(slots)
    ensures Decodable(Map(Build(slots)), d) <==>
      d <= MAX_NESTING_DEPTH && forall i | 0 <= i < |slots| :: slots[i].1.Some? ==> Decodable(slots[i].1.value, d + 1)
  {
    hide Decodable;
    var v := Map(Build(slots));
    BuildEntries(slots);
    BuildCovers(slots);
    DecodableMap(v, d);
    assert forall i | 0 <= i < |v.m| :: ValAt(v, i) == v.m[i].1;
    assert forall i, j | 0 <= i < j < |v.m| :: KeyAt(v, i) != KeyAt(v, j);
  }

  /** Every present slot is built. */
  lemma {:induction false} BuildCovers(slots: seq<Slot>)
    ensures forall i | 0 <= i < |slots| :: slots[i].1.Some? ==> (slots[i].0, slots[i].1.value) in Build(slots)
  {
    if slots != [] {
      BuildCovers(slots[1..]);
      forall i | 0 <= i < |slots| && slots[i].1.Some?
        ensures (slots[i].0, slots[i].1.value) in Build(slots)
      {
        if i > 0 {
          assert slots[i] == slots[1..][i - 1];
        }
      }
    }
  }

  /** Values of a map that fits, fit. */
  lemma FitsBuild(slots: seq<Slot>)
    ensures Fits(Map(Build(slots))) ==> forall i | 0 <= i < |slots| :: slots[i].1.Some? ==> Fits(slots[i].1.value)
    ensures |slots| <= U64_MAX && (forall i | 0 <= i < |slots| :: slots[i].1.Some? ==> Fits(slots[i].1.value))
      ==> Fits(Map(Build(slots)))
  {
    hide Fits;
    var v := Map(Build(slots));
    BuildCovers(slots);
    BuildShorter(slots);
    FitsMapUnfold(v);
    forall i | 0 <= i < |slots| && slots[i].1.Some? && Fits(v)
      ensures Fits(slots[i].1.value)
    {
      assert (slots[i].0, slots[i].1.value) in v.m;
    }
  }

  lemma FitsMapUnfold(v: Cv)
    requires v.Map?
    ensures Fits(v) <==> |v.m| <= U64_MAX && forall i | 0 <= i < |v.m| :: Fits(v.m[i].1)
  {
  }

  lemma {:induction false} BuildShorter(slots: seq<Slot>)
    ensures |Build(slots)| <= |slots|
    ensures forall i | 0 <= i < |Build(slots)| :: (Build(slots)[i].0, Some(Build(slots)[i].1)) in slots
  {
    if slots != [] {
      BuildShorter(slots[1..]);
    }
  }
}
