/**
 The envelope on the wire: every envelope has exactly one accepted encoding, and that encoding reads back
 as the envelope.
 */
module MoteWire {
  import opened Prelude
  import opened CborValue
  import opened CborParse
  import opened CborCanon
  import opened CborExact
  import opened CborRoundTrip
  import opened CborFields
  import opened MoteTypes
  import opened MoteCodec

  // ---------------------------------------------------------------- written, then read

  lemma TagNormal(t: DeliveryTag)
    ensures Normal(TagCv(t)) == TagCv(t)
  {
    hide Build, OrderFrom, MapOf, NormalEntries;
    NormalAll(TagSlots(t));
  }

  function Disc(c: ChallengeResponse): U64 {
    match c
    case Arc(_, _, _, _) => 1
    case Pow(_, _, _, _, _, _, _) => 2
    case Postage(_, _, _, _, _, _, _) => 3
    case Vouch(_, _, _, _, _) => 4
  }

  /** The discriminator fixes the keys. */
  lemma ChallengeKeys(c: ChallengeResponse)
    ensures KeysAscend(ChallengeSlots(c))
    ensures |ChallengeSlots(c)| == if c.Arc? then 5 else if c.Postage? then 8 else 6
    ensures forall i | 0 <= i < |ChallengeSlots(c)| :: ChallengeSlots(c)[i].0 == i
  {
  }

  lemma ChallengeNormal(c: ChallengeResponse)
    ensures Normal(ChallengeCv(c)) == ChallengeCv(c)
  {
    hide Build, OrderFrom, MapOf, NormalEntries;
    if c.Pow? {
      var a := Array([Uint(c.m), Uint(c.iters), Uint(c.lanes)]);
      assert Normal(a).a == a.a;
    }
    NormalAll(ChallengeSlots(c));
  }

  lemma TagWritten(t: DeliveryTag)
    ensures TagFrom(TagCv(t)) == Ok(t)
  {
    hide Take, Build;
    var s := TagSlots(t);
    BuildEnds(s);
    TakeAt(s, 0);
    TakeAt(s, 1);
  }

  lemma SuiteWritten(s: Suite)
    ensures SuiteFrom(SuiteCv(s)) == Ok(s)
  {
  }

  lemma KindWritten(k: Kind)
    ensures KindFrom(Uint(KindByte(k))) == Ok(k)
  {
  }

  /** The discriminator is read first and decides the arm. */
  lemma ChallengeFirst(c: ChallengeResponse)
    ensures var f := Build(ChallengeSlots(c)[1..]);
      ChallengeFrom(ChallengeCv(c)) ==
      if c.Arc? then ArcFrom(f) else if c.Pow? then PowFrom(f) else if c.Postage? then PostageFrom(f) else VouchFrom(f)
  {
    hide Take, Build, ArcFrom, PowFrom, PostageFrom, VouchFrom;
    ChallengeKeys(c);
    var s := ChallengeSlots(c);
    BuildEnds(s);
    TakeAt(s, 0);
  }

  lemma ArcWritten(c: ChallengeResponse)
    requires c.Arc?
    ensures ArcFrom(Build(ChallengeSlots(c)[1..])) == Ok(c)
  {
    hide Take, Build, Optional, Opt;
    ChallengeKeys(c);
    var s := ChallengeSlots(c);
    BuildEnds(s);
    OptionalWritten(c.nonce, BstrCv, AsBytes);
    TakeAt(s, 1);
    TakeAt(s, 2);
    TakeAt(s, 3);
    TakeAt(s, 4);
  }

  lemma PowWritten(c: ChallengeResponse)
    requires c.Pow?
    ensures PowFrom(Build(ChallengeSlots(c)[1..])) == Ok(c)
  {
    hide Take, Build;
    ChallengeKeys(c);
    var s := ChallengeSlots(c);
    BuildEnds(s);
    TakeAt(s, 1);
    TakeAt(s, 2);
    TakeAt(s, 3);
    TakeAt(s, 4);
    TakeAt(s, 5);
  }

  lemma PostageWritten(c: ChallengeResponse)
    requires c.Postage?
    ensures PostageFrom(Build(ChallengeSlots(c)[1..])) == Ok(c)
  {
    hide Take, Build, Optional, Opt;
    ChallengeKeys(c);
    var s := ChallengeSlots(c);
    BuildEnds(s);
    OptionalWritten(c.audience, BstrCv, AsBytes);
    TakeAt(s, 1);
    TakeAt(s, 2);
    TakeAt(s, 3);
    TakeAt(s, 4);
    TakeAt(s, 5);
    TakeAt(s, 6);
    TakeAt(s, 7);
  }

  lemma VouchWritten(c: ChallengeResponse)
    requires c.Vouch?
    ensures VouchFrom(Build(ChallengeSlots(c)[1..])) == Ok(c)
  {
    hide Take, Build;
    ChallengeKeys(c);
    var s := ChallengeSlots(c);
    BuildEnds(s);
    TakeAt(s, 1);
    TakeAt(s, 2);
    TakeAt(s, 3);
    TakeAt(s, 4);
    TakeAt(s, 5);
  }

  lemma ChallengeWritten(c: ChallengeResponse)
    ensures ChallengeFrom(ChallengeCv(c)) == Ok(c)
  {
    hide ChallengeFrom, ChallengeCv, Build, ChallengeSlots, ArcFrom, PowFrom, PostageFrom, VouchFrom;
    ChallengeFirst(c);
    match c {
      case Arc(_, _, _, _) => ArcWritten(c);
      case Pow(_, _, _, _, _, _, _) => PowWritten(c);
      case Postage(_, _, _, _, _, _, _) => PostageWritten(c);
      case Vouch(_, _, _, _, _) => VouchWritten(c);
    }
  }

  lemma KeyPackageWritten(k: KeyPackageRef)
    ensures KeyPackageFrom(KeyPackageCv(k)) == Ok(k)
    ensures Normal(KeyPackageCv(k)) == KeyPackageCv(k)
  {
    hide Take, Build, Optional, Opt, Normal, SuiteFrom, SuiteCv;
    KeyPackageNormal(k);
    SuiteWritten(k.suite);
    OptionalWritten(k.loc, TextCv, AsText);
    var s := KeyPackageSlots(k);
    BuildEnds(s);
    TakeAt(s, 0);
    TakeAt(s, 1);
    TakeAt(s, 2);
  }

  lemma KeyPackageNormal(k: KeyPackageRef)
    ensures Normal(KeyPackageCv(k)) == KeyPackageCv(k)
  {
    hide Build, OrderFrom, MapOf, NormalEntries;
    NormalAll(KeyPackageSlots(k));
  }

  lemma EnvelopeNormal(e: Envelope)
    ensures Normal(EnvelopeCv(e)) == EnvelopeCv(e)
  {
    hide Build, OrderFrom, MapOf, NormalEntries, TagCv, KeyPackageCv, ChallengeCv;
    TagNormal(e.to);
    if e.keypkg.Some? {
      KeyPackageNormal(e.keypkg.value);
    }
    if e.challenge.Some? {
      ChallengeNormal(e.challenge.value);
    }
    NormalAll(EnvelopeSlots(e));
  }

  function HeadOf(e: Envelope): EnvelopeHead {
    EnvelopeHead(e.v, e.suite, e.id, e.to, e.epoch, e.ts)
  }

  lemma EnvelopeRestWritten(e: Envelope)
    ensures EnvelopeRest(Build(EnvelopeSlots(e)[6..]), HeadOf(e)) == Ok(e)
  {
    hide Take, Build, Optional, Opt, SuiteCv, KindFrom, KindByte;
    hide TagCv, KeyPackageFrom, KeyPackageCv, ChallengeFrom, ChallengeCv;
    KindWritten(e.kind);
    if e.keypkg.Some? {
      KeyPackageWritten(e.keypkg.value);
    }
    if e.challenge.Some? {
      ChallengeWritten(e.challenge.value);
    }
    OptionalWritten(e.keypkg, KeyPackageCv, KeyPackageFrom);
    OptionalWritten(e.challenge, ChallengeCv, ChallengeFrom);
    OptionalWritten(e.senderSig, BstrCv, AsBytes);
    OptionalWritten(e.senderEph, BstrCv, AsBytes);
    var s := EnvelopeSlots(e);
    BuildEnds(s);
    TakeAt(s, 6);
    TakeAt(s, 7);
    TakeAt(s, 8);
    TakeAt(s, 9);
    TakeAt(s, 10);
    TakeAt(s, 11);
  }

  lemma EnvelopeWritten(e: Envelope)
    ensures EnvelopeFrom(EnvelopeCv(e)) == Ok(e)
  {
    hide Take, Build, Optional, Opt, SuiteFrom, SuiteCv, KindByte, EnvelopeRest;
    hide TagFrom, TagCv, KeyPackageCv, ChallengeCv;
    EnvelopeRestWritten(e);
    SuiteWritten(e.suite);
    TagWritten(e.to);
    OptionalWritten(e.epoch, BstrCv, AsBytes);
    var s := EnvelopeSlots(e);
    BuildEnds(s);
    TakeAt(s, 0);
    TakeAt(s, 1);
    TakeAt(s, 2);
    TakeAt(s, 3);
    TakeAt(s, 4);
    TakeAt(s, 5);
  }

  // ---------------------------------------------------------------- read, then written

  ghost predicate FieldsAscend(m: FieldMap) {
    forall i, j | 0 <= i < j < |m| :: m[i].0 < m[j].0
  }

  ghost predicate Ascend(ks: seq<U64>) {
    forall i, j | 0 <= i < j < |ks| :: ks[i] < ks[j]
  }

  /** Taking a key keeps the others in order. */
  lemma {:induction false} TakeKeeps(m: FieldMap, k: U64)
    requires FieldsAscend(m)
    ensures FieldsAscend(Take(m, k).1)
    ensures forall e | e in Take(m, k).1 :: e in m
  {
    if m != [] && m[0].0 != k {
      TakeKeeps(m[1..], k);
      var rest := Take(m[1..], k).1;
      forall i | 0 <= i < |rest|
        ensures m[0].0 < rest[i].0
      {
        assert rest[i] in m[1..];
        var j :| 0 <= j < |m[1..]| && m[1..][j] == rest[i];
        assert m[j + 1] == rest[i];
      }
    }
  }

  /** A key below all that is left stood in front. */
  lemma {:induction false} TakeBack(m: FieldMap, k: U64)
    requires FieldsAscend(m)
    requires forall i | 0 <= i < |Take(m, k).1| :: k < Take(m, k).1[i].0
    ensures var (x, rest) := Take(m, k); m == (if x.Some? then [(k, x.value)] else []) + rest
  {
    if m != [] {
      if m[0].0 == k {
        assert m == [(k, m[0].1)] + m[1..];
      } else {
        var (x, rest) := Take(m[1..], k);
        assert k < ([m[0]] + rest)[0].0;
        AllAbove(m, k);
        TakeAbsent(m, k);
        assert [] + m == m;
      }
    }
  }

  lemma AllAbove(m: FieldMap, k: U64)
    requires FieldsAscend(m) && m != [] && k < m[0].0
    ensures forall i | 0 <= i < |m| :: m[i].0 != k
  {
  }

  /** What is left after taking the first `i` keys. */
  function RestAt(m: FieldMap, ks: seq<U64>, i: nat): FieldMap
    requires i <= |ks|
  {
    if i == 0 then m else Take(RestAt(m, ks, i - 1), ks[i - 1]).1
  }

  /** The slots that reading the keys in turn finds. */
  function SlotsRead(m: FieldMap, ks: seq<U64>, i: nat): (t: seq<Slot>)
    requires i <= |ks|
    ensures |t| == |ks| - i
    ensures forall j | 0 <= j < |t| :: t[j] == (ks[i + j], Take(RestAt(m, ks, i + j), ks[i + j]).0)
  {
    seq(|ks| - i, j requires 0 <= j < |ks| - i => (ks[i + j], Take(RestAt(m, ks, i + j), ks[i + j]).0))
  }

  lemma {:induction false} RestAscends(m: FieldMap, ks: seq<U64>, i: nat)
    requires i <= |ks| && FieldsAscend(m)
    ensures FieldsAscend(RestAt(m, ks, i))
    ensures forall e | e in RestAt(m, ks, i) :: e in m
  {
    if i > 0 {
      RestAscends(m, ks, i - 1);
      TakeKeeps(RestAt(m, ks, i - 1), ks[i - 1]);
    }
  }

  /** What is built from later slots lies above an earlier key. */
  lemma BuildAbove(t: seq<Slot>, k: U64)
    requires KeysAscend(t) && forall i | 0 <= i < |t| :: k < t[i].0
    ensures forall i | 0 <= i < |Build(t)| :: k < Build(t)[i].0
  {
    hide Build;
    BuildEntries(t);
    forall i | 0 <= i < |Build(t)|
      ensures k < Build(t)[i].0
    {
      var n :| 0 <= n < |t| && t[n] == (Build(t)[i].0, Some(Build(t)[i].1));
    }
  }

  lemma BuildFirst(t: seq<Slot>)
    requires t != []
    ensures Build(t) == (if t[0].1.Some? then [(t[0].0, t[0].1.value)] else []) + Build(t[1..])
  {
  }

  /** Reading ascending keys until nothing is left accounts for the whole map. */
  lemma {:induction false} ReadExact(m: FieldMap, ks: seq<U64>, i: nat)
    requires i <= |ks| && FieldsAscend(m) && Ascend(ks) && RestAt(m, ks, |ks|) == []
    ensures RestAt(m, ks, i) == Build(SlotsRead(m, ks, i))
    decreases |ks| - i
  {
    hide Take, RestAt, Build;
    if i == |ks| {
      BuildEnds(SlotsRead(m, ks, i));
    } else {
      var t, rest := SlotsRead(m, ks, i), SlotsRead(m, ks, i + 1);
      ReadExact(m, ks, i + 1);
      RestAscends(m, ks, i);
      RestNext(m, ks, i);
      assert t[1..] == rest;
      BuildAbove(rest, ks[i]);
      TakeBack(RestAt(m, ks, i), ks[i]);
      BuildFirst(t);
    }
  }

  /** One more key read. */
  lemma RestNext(m: FieldMap, ks: seq<U64>, i: nat)
    requires i < |ks|
    ensures RestAt(m, ks, 0) == m && RestAt(m, ks, i + 1) == Take(RestAt(m, ks, i), ks[i]).1
  {
  }

  /** The entries of a canonical map ascend, and their values are canonical one level deeper. */
  lemma CanonicalFields(v: Cv, d: nat)
    requires v.Map? && Canonical(v, d)
    ensures FieldsAscend(v.m) && forall e | e in v.m :: Canonical(e.1, d + 1)
  {
    hide Normal, OrderFrom, Keys;
    NormalAscends(v);
    BuiltOrder(v);
    var n := NormalMap(v);
    forall e | e in v.m
      ensures Canonical(e.1, d + 1)
    {
      var x :| 0 <= x < |v.m| && v.m[x] == e;
      assert n[x] == (v.m[x].0, Normal(v.m[x].1));
    }
  }

  lemma {:induction false} TakeFound(m: FieldMap, k: U64)
    ensures Take(m, k).0.Some? ==> (k, Take(m, k).0.value) in m
  {
    if m != [] && m[0].0 != k {
      TakeFound(m[1..], k);
    }
  }

  /** What reading finds is canonical if the map is. */
  lemma ReadCanonical(v: Cv, d: nat, ks: seq<U64>, i: nat)
    requires v.Map? && Canonical(v, d) && i < |ks|
    ensures var x := Take(RestAt(v.m, ks, i), ks[i]).0; x.Some? ==> Canonical(x.value, d + 1)
  {
    hide Canonical, Take, RestAt;
    CanonicalFields(v, d);
    RestAscends(v.m, ks, i);
    TakeFound(RestAt(v.m, ks, i), ks[i]);
  }

  /** Reading all keys in turn leaves nothing: the map is exactly what was read. */
  lemma ReadWhole(v: Cv, d: nat, ks: seq<U64>)
    requires v.Map? && Canonical(v, d) && Ascend(ks) && RestAt(v.m, ks, |ks|) == []
    ensures v == Map(Build(SlotsRead(v.m, ks, 0)))
  {
    hide Canonical, Take, RestAt, Build;
    CanonicalFields(v, d);
    ReadExact(v.m, ks, 0);
    if |ks| > 0 {
      RestNext(v.m, ks, 0);
    } else {
      assert RestAt(v.m, ks, 0) == v.m by {
        RestStart(v.m, ks);
      }
    }
  }

  lemma RestStart(m: FieldMap, ks: seq<U64>)
    ensures RestAt(m, ks, 0) == m
  {
  }

  /** An optional field that was read is written as it stood. */
  lemma OptionalRead<T>(x: Option<Cv>, w: T -> Cv, r: Cv -> Result<T, CborError>)
    requires Optional(x, r).Ok?
    requires x.Some? && r(x.value).Ok? ==> w(r(x.value).value) == x.value
    ensures Opt(Optional(x, r).value, w) == x
  {
  }

  lemma TagRead(v: Cv, d: nat)
    requires Canonical(v, d) && TagFrom(v).Ok?
    ensures v == TagCv(TagFrom(v).value)
  {
    hide Canonical, Take, RestAt, Build;
    var ks: seq<U64> := [0, 1];
    RestNext(v.m, ks, 0);
    RestNext(v.m, ks, 1);
    ReadWhole(v, d, ks);
    var s, t := SlotsRead(v.m, ks, 0), TagSlots(TagFrom(v).value);
    assert s[0] == t[0] && s[1] == t[1];
    assert s == t;
  }

  lemma KeyPackageRead(v: Cv, d: nat)
    requires Canonical(v, d) && KeyPackageFrom(v).Ok?
    ensures v == KeyPackageCv(KeyPackageFrom(v).value)
  {
    hide Canonical, Take, RestAt, Build, Optional, Opt, SuiteFromByte, SuiteByte;
    var ks: seq<U64> := [1, 2, 3];
    RestNext(v.m, ks, 0);
    RestNext(v.m, ks, 1);
    RestNext(v.m, ks, 2);
    ReadWhole(v, d, ks);
    OptionalRead(Take(RestAt(v.m, ks, 2), 3).0, TextCv, AsText);
    var s, t := SlotsRead(v.m, ks, 0), KeyPackageSlots(KeyPackageFrom(v).value);
    assert s[0] == t[0] && s[1] == t[1] && s[2] == t[2];
    assert s == t;
  }

  lemma ArcRead(v: Cv, d: nat)
    requires Canonical(v, d) && ChallengeFrom(v).Ok? && ChallengeFrom(v).value.Arc?
    ensures v == ChallengeCv(ChallengeFrom(v).value)
  {
    hide ChallengeFrom, Canonical, Take, RestAt, Build, Optional, Opt, PowFrom, PostageFrom, VouchFrom;
    FromsDiffer(v);
    var ks: seq<U64> := [0, 1, 2, 3, 4];
    RestNext(v.m, ks, 0);
    RestNext(v.m, ks, 1);
    RestNext(v.m, ks, 2);
    RestNext(v.m, ks, 3);
    RestNext(v.m, ks, 4);
    ReadWhole(v, d, ks);
    OptionalRead(Take(RestAt(v.m, ks, 4), 4).0, BstrCv, AsBytes);
    var c := ChallengeFrom(v).value;
    var s, t := SlotsRead(v.m, ks, 0), ChallengeSlots(c);
    assert s[0] == t[0] && s[1] == t[1] && s[2] == t[2] && s[3] == t[3];
    assert s[4] == t[4];
    assert s == t;
  }

  lemma PowRead(v: Cv, d: nat)
    requires Canonical(v, d) && ChallengeFrom(v).Ok? && ChallengeFrom(v).value.Pow?
    ensures v == ChallengeCv(ChallengeFrom(v).value)
  {
    hide ChallengeFrom, Canonical, Take, RestAt, Build, ArcFrom, PostageFrom, VouchFrom;
    FromsDiffer(v);
    var ks: seq<U64> := [0, 1, 2, 3, 4, 5];
    RestNext(v.m, ks, 0);
    RestNext(v.m, ks, 1);
    RestNext(v.m, ks, 2);
    RestNext(v.m, ks, 3);
    RestNext(v.m, ks, 4);
    RestNext(v.m, ks, 5);
    ReadWhole(v, d, ks);
    var params := Take(RestAt(v.m, ks, 2), 2).0.value;
    assert params.a == [params.a[0], params.a[1], params.a[2]];
    var c := ChallengeFrom(v).value;
    var s, t := SlotsRead(v.m, ks, 0), ChallengeSlots(c);
    assert s[0] == t[0] && s[1] == t[1] && s[2] == t[2] && s[3] == t[3];
    assert s[4] == t[4] && s[5] == t[5];
    assert s == t;
  }

  lemma PostageRead(v: Cv, d: nat)
    requires Canonical(v, d) && ChallengeFrom(v).Ok? && ChallengeFrom(v).value.Postage?
    ensures v == ChallengeCv(ChallengeFrom(v).value)
  {
    hide ChallengeFrom, Canonical, Take, RestAt, Build, Optional, Opt, ArcFrom, PowFrom, VouchFrom;
    FromsDiffer(v);
    var ks: seq<U64> := [0, 1, 2, 3, 4, 5, 6, 7];
    RestNext(v.m, ks, 0);
    RestNext(v.m, ks, 1);
    RestNext(v.m, ks, 2);
    RestNext(v.m, ks, 3);
    RestNext(v.m, ks, 4);
    RestNext(v.m, ks, 5);
    RestNext(v.m, ks, 6);
    RestNext(v.m, ks, 7);
    ReadWhole(v, d, ks);
    OptionalRead(Take(RestAt(v.m, ks, 6), 6).0, BstrCv, AsBytes);
    var c := ChallengeFrom(v).value;
    var s, t := SlotsRead(v.m, ks, 0), ChallengeSlots(c);
    assert s[0] == t[0] && s[1] == t[1] && s[2] == t[2] && s[3] == t[3];
    assert s[4] == t[4] && s[5] == t[5] && s[6] == t[6] && s[7] == t[7];
    assert s == t;
  }

  lemma VouchRead(v: Cv, d: nat)
    requires Canonical(v, d) && ChallengeFrom(v).Ok? && ChallengeFrom(v).value.Vouch?
    ensures v == ChallengeCv(ChallengeFrom(v).value)
  {
    hide ChallengeFrom, Canonical, Take, RestAt, Build, ArcFrom, PowFrom, PostageFrom;
    FromsDiffer(v);
    var ks: seq<U64> := [0, 1, 2, 3, 4, 5];
    RestNext(v.m, ks, 0);
    RestNext(v.m, ks, 1);
    RestNext(v.m, ks, 2);
    RestNext(v.m, ks, 3);
    RestNext(v.m, ks, 4);
    RestNext(v.m, ks, 5);
    ReadWhole(v, d, ks);
    var c := ChallengeFrom(v).value;
    var s, t := SlotsRead(v.m, ks, 0), ChallengeSlots(c);
    assert s[0] == t[0] && s[1] == t[1] && s[2] == t[2] && s[3] == t[3];
    assert s[4] == t[4] && s[5] == t[5];
    assert s == t;
  }

  /** The discriminator read decides the kind of challenge. */
  lemma FromsDiffer(v: Cv)
    requires ChallengeFrom(v).Ok?
    ensures v.Map? && Take(v.m, 0).0 == Some(Uint(Disc(ChallengeFrom(v).value)))
    ensures var c, f := ChallengeFrom(v).value, Take(v.m, 0).1;
      Ok(c) ==
      if c.Arc? then ArcFrom(f) else if c.Pow? then PowFrom(f) else if c.Postage? then PostageFrom(f) else VouchFrom(f)
  {
    hide Take;
  }

  lemma ChallengeRead(v: Cv, d: nat)
    requires Canonical(v, d) && ChallengeFrom(v).Ok?
    ensures v == ChallengeCv(ChallengeFrom(v).value)
  {
    hide Canonical, ChallengeFrom, ChallengeCv;
    match ChallengeFrom(v).value {
      case Arc(_, _, _, _) => ArcRead(v, d);
      case Pow(_, _, _, _, _, _, _) => PowRead(v, d);
      case Postage(_, _, _, _, _, _, _) => PostageRead(v, d);
      case Vouch(_, _, _, _, _) => VouchRead(v, d);
    }
  }

  const ENVELOPE_KEYS: seq<U64> := [1, 2, 3, 4, 5, 6, 7, 8, 9, 10, 11, 12]

  lemma EnvelopeRestRead(v: Cv, d: nat, h: EnvelopeHead)
    requires v.Map? && Canonical(v, d) && EnvelopeRest(RestAt(v.m, ENVELOPE_KEYS, 6), h).Ok?
    ensures var e := EnvelopeRest(RestAt(v.m, ENVELOPE_KEYS, 6), h).value;
      && HeadOf(e) == h && RestAt(v.m, ENVELOPE_KEYS, 12) == []
      && SlotsRead(v.m, ENVELOPE_KEYS, 6) == EnvelopeSlots(e)[6..]
  {
    hide Canonical, Take, RestAt, Build, Optional, Opt, KindFromByte, KindByte;
    hide SuiteCv, TagCv, KeyPackageFrom, KeyPackageCv, ChallengeFrom, ChallengeCv;
    var ks := ENVELOPE_KEYS;
    RestNext(v.m, ks, 6);
    RestNext(v.m, ks, 7);
    RestNext(v.m, ks, 8);
    RestNext(v.m, ks, 9);
    RestNext(v.m, ks, 10);
    RestNext(v.m, ks, 11);
    OptionalKeyPackageRead(v, d, 7);
    OptionalChallengeRead(v, d, 8);
    OptionalRead(Take(RestAt(v.m, ks, 10), 11).0, BstrCv, AsBytes);
    OptionalRead(Take(RestAt(v.m, ks, 11), 12).0, BstrCv, AsBytes);
  }

  lemma OptionalKeyPackageRead(v: Cv, d: nat, i: nat)
    requires v.Map? && Canonical(v, d) && i < 12
    ensures var x := Take(RestAt(v.m, ENVELOPE_KEYS, i), ENVELOPE_KEYS[i]).0;
      Optional(x, KeyPackageFrom).Ok? ==> Opt(Optional(x, KeyPackageFrom).value, KeyPackageCv) == x
  {
    hide Canonical, Take, RestAt, KeyPackageFrom, KeyPackageCv;
    ReadCanonical(v, d, ENVELOPE_KEYS, i);
    var x := Take(RestAt(v.m, ENVELOPE_KEYS, i), ENVELOPE_KEYS[i]).0;
    if x.Some? && KeyPackageFrom(x.value).Ok? {
      KeyPackageRead(x.value, d + 1);
    }
  }

  lemma OptionalChallengeRead(v: Cv, d: nat, i: nat)
    requires v.Map? && Canonical(v, d) && i < 12
    ensures var x := Take(RestAt(v.m, ENVELOPE_KEYS, i), ENVELOPE_KEYS[i]).0;
      Optional(x, ChallengeFrom).Ok? ==> Opt(Optional(x, ChallengeFrom).value, ChallengeCv) == x
  {
    hide Canonical, Take, RestAt, ChallengeFrom, ChallengeCv;
    ReadCanonical(v, d, ENVELOPE_KEYS, i);
    var x := Take(RestAt(v.m, ENVELOPE_KEYS, i), ENVELOPE_KEYS[i]).0;
    if x.Some? && ChallengeFrom(x.value).Ok? {
      ChallengeRead(x.value, d + 1);
    }
  }

  /** A canonical value that reads as an envelope is the wire form of that envelope. */
  lemma EnvelopeRead(v: Cv, d: nat)
    requires Canonical(v, d) && EnvelopeFrom(v).Ok?
    ensures v == EnvelopeCv(EnvelopeFrom(v).value)
  {
    hide Canonical, Take, RestAt, Build, Optional, Opt, SuiteFromByte, SuiteByte, KindByte, EnvelopeRest;
    hide TagFrom, TagCv, KeyPackageCv, ChallengeCv;
    var ks := ENVELOPE_KEYS;
    RestNext(v.m, ks, 0);
    RestNext(v.m, ks, 1);
    RestNext(v.m, ks, 2);
    RestNext(v.m, ks, 3);
    RestNext(v.m, ks, 4);
    RestNext(v.m, ks, 5);
    ReadCanonical(v, d, ks, 3);
    TagRead(Take(RestAt(v.m, ks, 3), 4).0.value, d + 1);
    OptionalRead(Take(RestAt(v.m, ks, 4), 5).0, BstrCv, AsBytes);
    var h := EnvelopeHead(
      AsU8(Take(RestAt(v.m, ks, 0), 1).0.value).value, SuiteFrom(Take(RestAt(v.m, ks, 1), 2).0.value).value,
      AsBytes(Take(RestAt(v.m, ks, 2), 3).0.value).value, TagFrom(Take(RestAt(v.m, ks, 3), 4).0.value).value,
      Optional(Take(RestAt(v.m, ks, 4), 5).0, AsBytes).value, AsU64(Take(RestAt(v.m, ks, 5), 6).0.value).value);
    assert EnvelopeFrom(v) == EnvelopeRest(RestAt(v.m, ks, 6), h);
    EnvelopeRestRead(v, d, h);
    ReadWhole(v, d, ks);
    var s, t := SlotsRead(v.m, ks, 0), EnvelopeSlots(EnvelopeFrom(v).value);
    assert s[..6] == t[..6];
    assert s[6..] == SlotsRead(v.m, ks, 6) == t[6..];
    assert s == s[..6] + s[6..] && t == t[..6] + t[6..];
  }

  // ---------------------------------------------------------------- bytes

  lemma TagDecodable(t: DeliveryTag, d: nat)
    requires d < MAX_NESTING_DEPTH
    ensures Decodable(TagCv(t), d)
  {
    hide Build, DistinctKeys;
    DecodableBuild(TagSlots(t), d);
  }

  lemma KeyPackageDecodable(k: KeyPackageRef, d: nat)
    requires d < MAX_NESTING_DEPTH
    ensures Decodable(KeyPackageCv(k), d)
  {
    hide Build, DistinctKeys;
    DecodableBuild(KeyPackageSlots(k), d);
  }

  lemma ChallengeDecodable(c: ChallengeResponse, d: nat)
    requires d + 1 < MAX_NESTING_DEPTH
    ensures Decodable(ChallengeCv(c), d)
  {
    hide Build, DistinctKeys;
    ChallengeKeys(c);
    DecodableBuild(ChallengeSlots(c), d);
  }

  lemma EnvelopeDecodable(e: Envelope)
    ensures Decodable(EnvelopeCv(e), 0)
  {
    hide Build, DistinctKeys, TagCv, KeyPackageCv, ChallengeCv;
    TagDecodable(e.to, 1);
    if e.keypkg.Some? {
      KeyPackageDecodable(e.keypkg.value, 1);
    }
    if e.challenge.Some? {
      ChallengeDecodable(e.challenge.value, 1);
    }
    DecodableBuild(EnvelopeSlots(e), 0);
  }

  /** `Envelope::from_det_cbor`. */
  function EnvelopeOf(b: Bytes): Result<Envelope, CborError> {
    var v :- Decode(b);
    EnvelopeFrom(v)
  }

  /** `from_det_cbor` accepts exactly what `det_cbor` writes: no envelope has two wire forms. */
  lemma EnvelopeIff(b: Bytes, e: Envelope)
    ensures EnvelopeOf(b) == Ok(e) <==> b == Encode(EnvelopeCv(e)) && Fits(EnvelopeCv(e))
  {
    hide Encode, Decode, EnvelopeFrom, EnvelopeCv, Fits, Normal, Decodable;
    if EnvelopeOf(b) == Ok(e) {
      var v := Decode(b).value;
      DecodeExact(b, v);
      EnvelopeRead(v, 0);
    }
    if Fits(EnvelopeCv(e)) {
      RoundTrip(EnvelopeCv(e));
      EnvelopeDecodable(e);
      EnvelopeNormal(e);
      EnvelopeWritten(e);
    }
  }
}
