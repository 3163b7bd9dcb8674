/**
 The strict decoder as functions of the input bytes and a position: what the cursor-moving `Decoder`
 of `CborCodec` computes, error by error.
 */
module CborParse {
  import opened Prelude
  import opened CborBytes
  import opened CborValue

  datatype CborError =
    | Malformed
    | NonShortestForm
    | IndefiniteLength
    | MapKeyOrder
    | TrailingData
    | FloatPresent
    | NullPresent
    | TagOrUndefined
    | DuplicateKey(key: U64)
    | DuplicateTextKey
    | MixedMapKeys
    | IntRange
    | TypeMismatch
    | UnknownKey(unknown: U64)
    | MissingKey(missing: U64)
    | UnknownSuite(suite: Byte)
    | UnknownDiscriminant(disc: U64)

  /** A value read and the position after it. */
  datatype Parsed<+T> = Parsed(val: T, pos: nat)

  type Parse<+T> = Result<Parsed<T>, CborError>

  datatype KeyKind = IntKeys | TextKeys

  const MAX_NESTING_DEPTH: nat := 64

  /** Reads the argument of a head whose additional information is `ai`, insisting on shortest form. */
  function Argument(b: Bytes, p: nat, ai: nat): (r: Parse<U64>)
    requires p <= |b| && ai < 32
    ensures r.Ok? ==> p <= r.value.pos <= |b|
  {
    if ai < 24 then Ok(Parsed(ai, p))
    else if ai <= 27 then
      if p + Width(ai) > |b| then Err(Malformed)
      else
        Pow256Values();
        BigEndianWrite(b[p..p + Width(ai)]);
        var v := FromBigEndian(b[p..p + Width(ai)]);
        if InfoOf(v) != ai then Err(NonShortestForm) else Ok(Parsed(v, p + Width(ai)))
    else if ai <= 30 then Err(Malformed)
    else Err(IndefiniteLength)
  }

  /** Major type 7: the two booleans, and rejections. */
  function Simple(b: Bytes, p: nat, ai: nat): (r: Parse<Cv>)
    requires p <= |b| && ai < 32
    ensures r.Ok? ==> r.value.pos == p
  {
    if ai == 20 then Ok(Parsed(Bool(false), p))
    else if ai == 21 then Ok(Parsed(Bool(true), p))
    else if ai == 22 then Err(NullPresent)
    else if ai == 23 then Err(TagOrUndefined)
    else if ai == 24 then Err(if p < |b| then TagOrUndefined else Malformed)
    else if 25 <= ai <= 27 then Err(if p + Width(ai) <= |b| then FloatPresent else Malformed)
    else if 28 <= ai <= 30 then Err(Malformed)
    else Err(IndefiniteLength)
  }

  /** One value at position `p`, nested `d` levels deep. */
  function Value(b: Bytes, p: nat, d: nat): (r: Parse<Cv>)
    requires p <= |b|
    ensures r.Ok? ==> p < r.value.pos <= |b|
    decreases |b| - p, 0
  {
    if d > MAX_NESTING_DEPTH || p == |b| then Err(Malformed)
    else
      var major, ai := b[p] / 32, b[p] % 32;
      if major == 7 then Simple(b, p + 1, ai)
      else
        match Argument(b, p + 1, ai)
        case Err(e) => Err(e)
        case Ok(Parsed(n, q)) => Body(b, p, d, major, n, q)
  }

  /** The rest of a value after its head, which ends at `q`. */
  function Body(b: Bytes, p: nat, d: nat, major: nat, n: U64, q: nat): (r: Parse<Cv>)
    requires p < q <= |b|
    ensures r.Ok? ==> q <= r.value.pos <= |b|
    decreases |b| - q, 2
  {
    if major == 0 then Ok(Parsed(Uint(n), q))
    else if major == 1 then Err(IntRange)
    else if major == 2 then
      if q + n > |b| then Err(Malformed) else Ok(Parsed(Bstr(b[q..q + n]), q + n))
    else if major == 3 then
      if q + n > |b| || !ValidUtf8(b[q..q + n]) then Err(Malformed) else Ok(Parsed(Text(b[q..q + n]), q + n))
    else if major == 4 then
      match Items(b, q, d + 1, n)
      case Err(e) => Err(e)
      case Ok(Parsed(vs, r)) => Ok(Parsed(Array(vs), r))
    else if major == 5 then
      match Entries(b, q, d + 1, n, None, None)
      case Err(e) => Err(e)
      case Ok(Parsed(es, r)) => Ok(Parsed(MapOf(es), r))
    else Err(TagOrUndefined)
  }

  /** `n` values one after the other. */
  function Items(b: Bytes, p: nat, d: nat, n: nat): (r: Parse<seq<Cv>>)
    requires p <= |b|
    ensures r.Ok? ==> p <= r.value.pos <= |b| && |r.value.val| == n
    decreases |b| - p, 1
  {
    if n == 0 then Ok(Parsed([], p))
    else
      match Value(b, p, d)
      case Err(e) => Err(e)
      case Ok(Parsed(v, q)) =>
        match Items(b, q, d, n - 1)
        case Err(e) => Err(e)
        case Ok(Parsed(vs, r)) => Ok(Parsed([v] + vs, r))
  }

  function KindOf(key: Cv): Option<KeyKind> {
    if key.Uint? then Some(IntKeys) else if key.Text? then Some(TextKeys) else None
  }

  /** All keys are of one kind. */
  predicate Uniform(es: seq<(Cv, Cv)>, kind: KeyKind) {
    forall i | 0 <= i < |es| :: KindOf(es[i].0) == Some(kind)
  }

  /** `n` entries: keys strictly above `prev` in encoded bytes, all of one kind. */
  function Entries(b: Bytes, p: nat, d: nat, n: nat, prev: Option<Bytes>, kind: Option<KeyKind>)
    : (r: Parse<seq<(Cv, Cv)>>)
    requires p <= |b|
    ensures r.Ok? ==> p <= r.value.pos <= |b| && |r.value.val| == n
    ensures r.Ok? ==> kind.Some? ==> Uniform(r.value.val, kind.value)
    ensures r.Ok? ==> Uniform(r.value.val, IntKeys) || Uniform(r.value.val, TextKeys)
    decreases |b| - p, 1
  {
    if n == 0 then Ok(Parsed([], p))
    else
      match Value(b, p, d)
      case Err(e) => Err(e)
      case Ok(Parsed(key, q)) =>
        if prev.Some? && Lt(b[p..q], prev.value) then Err(MapKeyOrder)
        else if prev == Some(b[p..q]) then Err(if key.Uint? then DuplicateKey(key.n) else DuplicateTextKey)
        else
          match Value(b, q, d)
          case Err(e) => Err(e)
          case Ok(Parsed(val, r)) =>
            if KindOf(key).None? || (kind.Some? && kind != KindOf(key)) then Err(MixedMapKeys)
            else
              match Entries(b, r, d, n - 1, Some(b[p..q]), KindOf(key))
              case Err(e) => Err(e)
              case Ok(Parsed(es, s)) => Ok(Parsed([(key, val)] + es, s))
  }

  /** The map with these entries; no entries make an integer-keyed map. */
  function MapOf(es: seq<(Cv, Cv)>): (v: Cv)
    requires Uniform(es, IntKeys) || Uniform(es, TextKeys)
    ensures IsMap(v) && Count(v) == |es|
    ensures forall i | 0 <= i < |es| :: KeyAt(v, i) == es[i].0 && ValAt(v, i) == es[i].1
  {
    if es != [] && es[0].0.Text? then
      TextMap(seq(|es|, i requires 0 <= i < |es| =>
        assert KindOf(es[i].0) == Some(TextKeys); (es[i].0.s, es[i].1)))
    else
      Map(seq(|es|, i requires 0 <= i < |es| =>
        assert KindOf(es[i].0) == Some(IntKeys); (es[i].0.n, es[i].1)))
  }

  /** A whole message: exactly one value. */
  function Decode(b: Bytes): Result<Cv, CborError> {
    match Value(b, 0, 0)
    case Err(e) => Err(e)
    case Ok(Parsed(v, q)) => if q != |b| then Err(TrailingData) else Ok(v)
  }
}
