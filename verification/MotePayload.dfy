/**
 The sealed payload on the wire: which byte strings decode to a payload.  There is one, and a second one exactly
 for payloads without extension headers, whose decoder also takes an explicit empty extension map.
 */
module MotePayload {
  import opened Prelude
  import opened CborValue
  import opened CborParse
  import opened CborCanon
  import opened CborExact
  import opened CborRoundTrip
  import opened CborFields
  import opened MoteTypes
  import opened MoteCodec
  import opened MoteWire
  import opened MotePipeline

  // ---------------------------------------------------------------- read, then written

  lemma ClassRead(b: Byte)
    ensures ClassByte(ClassFromByte(b)) == b
  {
  }

  lemma DurabilityRead(v: Cv, d: nat)
    requires Canonical(v, d) && DurabilityFrom(v).Ok?
    ensures v == DurabilityCv(DurabilityFrom(v).value)
  {
    hide Canonical, Take, RestAt, Build, Optional, Opt, ClassByte, ClassFromByte;
    var ks: seq<U64> := [1, 2, 3, 4];
    RestNext(v.m, ks, 0);
    RestNext(v.m, ks, 1);
    RestNext(v.m, ks, 2);
    RestNext(v.m, ks, 3);
    ReadWhole(v, d, ks);
    OptionalRead(Take(RestAt(v.m, ks, 1), 2).0, UintCv, AsU64);
    OptionalRead(Take(RestAt(v.m, ks, 2), 3).0, U32Cv, AsU32Field);
    OptionalRead(Take(RestAt(v.m, ks, 3), 4).0, TextCv, AsText);
    ClassRead(AsU8(Take(v.m, 1).0.value).value);
    var s, t := SlotsRead(v.m, ks, 0), DurabilitySlots(DurabilityFrom(v).value);
    assert s[0] == t[0] && s[1] == t[1] && s[2] == t[2] && s[3] == t[3];
    assert s == t;
  }

  lemma ManifestRead(v: Cv, d: nat)
    requires Canonical(v, d) && ManifestFrom(v).Ok?
    ensures v == ManifestCv(ManifestFrom(v).value)
  {
    hide Canonical, Take, RestAt, Build, Optional, Opt, DurabilityFrom, DurabilityCv;
    var ks: seq<U64> := [1, 2, 3, 4];
    RestNext(v.m, ks, 0);
    RestNext(v.m, ks, 1);
    RestNext(v.m, ks, 2);
    RestNext(v.m, ks, 3);
    ReadWhole(v, d, ks);
    var x := Take(RestAt(v.m, ks, 3), 4).0;
    ReadCanonical(v, d, ks, 3);
    if x.Some? && DurabilityFrom(x.value).Ok? {
      DurabilityRead(x.value, d + 1);
    }
    OptionalRead(x, DurabilityCv, DurabilityFrom);
    var s, t := SlotsRead(v.m, ks, 0), ManifestSlots(ManifestFrom(v).value);
    assert s[0] == t[0] && s[1] == t[1] && s[2] == t[2] && s[3] == t[3];
    assert s == t;
  }

  lemma AttachmentRead(v: Cv, d: nat)
    requires Canonical(v, d) && AttachmentFrom(v).Ok?
    ensures v == AttachmentCv(AttachmentFrom(v).value)
  {
    hide Canonical, Take, RestAt, Build, Optional, Opt, ManifestFrom, ManifestCv;
    var ks: seq<U64> := [1, 2, 3, 4, 5, 6];
    RestNext(v.m, ks, 0);
    RestNext(v.m, ks, 1);
    RestNext(v.m, ks, 2);
    RestNext(v.m, ks, 3);
    RestNext(v.m, ks, 4);
    RestNext(v.m, ks, 5);
    ReadWhole(v, d, ks);
    var x := Take(RestAt(v.m, ks, 4), 5).0;
    ReadCanonical(v, d, ks, 4);
    if x.Some? && ManifestFrom(x.value).Ok? {
      ManifestRead(x.value, d + 1);
    }
    OptionalRead(Take(RestAt(v.m, ks, 3), 4).0, BstrCv, AsBytes);
    OptionalRead(x, ManifestCv, ManifestFrom);
    var s, t := SlotsRead(v.m, ks, 0), AttachmentSlots(AttachmentFrom(v).value);
    assert s[0] == t[0] && s[1] == t[1] && s[2] == t[2];
    assert s[3] == t[3] && s[4] == t[4] && s[5] == t[5];
    assert s == t;
  }

  /** Collected items are written back as they stood. */
  lemma {:induction false} CollectRead<T>(vs: seq<Cv>, w: T -> Cv, r: Cv -> Result<T, CborError>)
    requires Collect(vs, r).Ok?
    requires forall i | 0 <= i < |vs| && r(vs[i]).Ok? :: w(r(vs[i]).value) == vs[i]
    ensures var xs := Collect(vs, r).value; |xs| == |vs| && forall i | 0 <= i < |vs| :: w(xs[i]) == vs[i]
  {
    if vs != [] {
      CollectRead(vs[1..], w, r);
      var xs, ys := Collect(vs, r).value, Collect(vs[1..], r).value;
      assert xs == [r(vs[0]).value] + ys;
      forall i | 0 <= i < |vs|
        ensures w(xs[i]) == vs[i]
      {
        if i > 0 {
          assert xs[i] == ys[i - 1] && vs[i] == vs[1..][i - 1];
        }
      }
    }
  }

  lemma BytesListRead(vs: seq<Cv>)
    requires Collect(vs, AsBytes).Ok?
    ensures Array(vs) == BytesList(Collect(vs, AsBytes).value)
  {
    CollectRead(vs, BstrCv, AsBytes);
    assert BytesList(Collect(vs, AsBytes).value).a == vs;
  }

  lemma CanonicalItems(vs: seq<Cv>, d: nat)
    requires Canonical(Array(vs), d)
    ensures forall i | 0 <= i < |vs| :: Canonical(vs[i], d + 1)
  {
    assert Normal(Array(vs)).a == vs;
    forall i | 0 <= i < |vs|
      ensures Canonical(vs[i], d + 1)
    {
      assert Normal(Array(vs)).a[i] == Normal(vs[i]);
    }
  }

  lemma AttachListRead(vs: seq<Cv>, d: nat)
    requires Canonical(Array(vs), d) && Collect(vs, AttachmentFrom).Ok?
    ensures Array(vs) == AttachList(Collect(vs, AttachmentFrom).value)
  {
    hide Canonical, AttachmentFrom, AttachmentCv;
    CanonicalItems(vs, d);
    forall i | 0 <= i < |vs| && AttachmentFrom(vs[i]).Ok?
      ensures AttachmentCv(AttachmentFrom(vs[i]).value) == vs[i]
    {
      AttachmentRead(vs[i], d + 1);
    }
    CollectRead(vs, AttachmentCv, AttachmentFrom);
    assert AttachList(Collect(vs, AttachmentFrom).value).a == vs;
  }

  /** Headers with an explicit empty extension map. */
  function ExplicitHeaders(h: Headers): Cv {
    Map(Build(HeadersAround(h, Some(Map([])))))
  }

  /** The extension field as it can stand: as written, or explicitly empty. */
  lemma ExtRead(x: Option<Cv>, d: nat)
    requires ExtFrom(x).Ok? && (x.Some? ==> Canonical(x.value, d))
    ensures var ext := ExtFrom(x).value;
      x == (if ext == [] then None else Some(TextMap(ext))) || (ext == [] && x == Some(Map([])))
  {
  }

  lemma HeadersRead(v: Cv, d: nat)
    requires Canonical(v, d) && HeadersFrom(v).Ok?
    ensures var h := HeadersFrom(v).value; v == HeadersCv(h) || (h.ext == [] && v == ExplicitHeaders(h))
  {
    hide Canonical, Build, HeadersFrom, HeadersAround;
    var x := HeadersReadAround(v, d);
  }

  lemma HeadersReadAround(v: Cv, d: nat) returns (x: Option<Cv>)
    requires Canonical(v, d) && HeadersFrom(v).Ok?
    ensures var h := HeadersFrom(v).value;
      && v == Map(Build(HeadersAround(h, x)))
      && (x == (if h.ext == [] then None else Some(TextMap(h.ext))) || (h.ext == [] && x == Some(Map([]))))
  {
    hide Canonical, Take, RestAt, Build, Optional, Opt, Collect, BytesList, ExtFrom;
    var ks: seq<U64> := [1, 2, 3, 4, 5, 6];
    RestNext(v.m, ks, 0);
    RestNext(v.m, ks, 1);
    RestNext(v.m, ks, 2);
    RestNext(v.m, ks, 3);
    RestNext(v.m, ks, 4);
    RestNext(v.m, ks, 5);
    ReadWhole(v, d, ks);
    OptionalRead(Take(RestAt(v.m, ks, 0), 1).0, BstrCv, AsBytes);
    OptionalRead(Take(RestAt(v.m, ks, 1), 2).0, TextCv, AsText);
    OptionalRead(Take(RestAt(v.m, ks, 2), 3).0, TextCv, AsText);
    BytesListRead(Take(RestAt(v.m, ks, 3), 4).0.value.a);
    x := Take(RestAt(v.m, ks, 4), 5).0;
    ReadCanonical(v, d, ks, 4);
    ExtRead(x, d + 1);
    OptionalRead(Take(RestAt(v.m, ks, 5), 6).0, BoolCv, AsBool);
    var s, t := SlotsRead(v.m, ks, 0), HeadersAround(HeadersFrom(v).value, x);
    assert s[0] == t[0] && s[1] == t[1] && s[2] == t[2];
    assert s[3] == t[3] && s[4] == t[4] && s[5] == t[5];
    assert s == t;
  }

  lemma PayloadRead(v: Cv, d: nat)
    requires Canonical(v, d) && PayloadFrom(v).Ok?
    ensures var p := PayloadFrom(v).value;
      || v == PayloadCv(p)
      || (p.headers.ext == [] && v == Map(Build(PayloadAround(p, ExplicitHeaders(p.headers)))))
  {
    hide Canonical, Take, RestAt, Build, Optional, Opt, Collect, BytesList, AttachList, AttachmentFrom, HeadersFrom;
    hide HeadersCv, ExplicitHeaders;
    var ks: seq<U64> := [1, 2, 3, 4, 5, 6, 7];
    RestNext(v.m, ks, 0);
    RestNext(v.m, ks, 1);
    RestNext(v.m, ks, 2);
    RestNext(v.m, ks, 3);
    RestNext(v.m, ks, 4);
    RestNext(v.m, ks, 5);
    RestNext(v.m, ks, 6);
    ReadWhole(v, d, ks);
    var hv := Take(RestAt(v.m, ks, 2), 3).0.value;
    ReadCanonical(v, d, ks, 2);
    HeadersRead(hv, d + 1);
    BytesListRead(Take(RestAt(v.m, ks, 4), 5).0.value.a);
    ReadCanonical(v, d, ks, 5);
    AttachListRead(Take(RestAt(v.m, ks, 5), 6).0.value.a, d + 1);
    OptionalRead(Take(RestAt(v.m, ks, 6), 7).0, UintCv, AsU64);
    var s, t := SlotsRead(v.m, ks, 0), PayloadAround(PayloadFrom(v).value, hv);
    assert s[0] == t[0] && s[1] == t[1] && s[2] == t[2] && s[3] == t[3];
    assert s[4] == t[4] && s[5] == t[5] && s[6] == t[6];
    assert s == t;
  }

  // ---------------------------------------------------------------- bytes

  /** `Payload::from_det_cbor`. */
  function PayloadOf(b: Bytes): Result<Payload, CborError> {
    var v :- Decode(b);
    PayloadFrom(v)
  }

  function ExplicitPayload(p: Payload): Cv {
    Map(Build(PayloadAround(p, ExplicitHeaders(p.headers))))
  }

  lemma ExplicitHeadersRead(h: Headers)
    ensures HeadersFrom(ExplicitHeaders(h)) == Ok(h.(ext := []))
    ensures Normal(ExplicitHeaders(h)) == ExplicitHeaders(h)
    ensures Decodable(ExplicitHeaders(h), 1)
  {
    hide Build, HeadersFrom, HeadersAround, Normal, Decodable;
    HeadersAroundRead(h, Some(Map([])), []);
    EmptyNormal();
    AroundNormal(h, Some(Map([])));
    AroundDecodable(h, Some(Map([])));
  }

  lemma AroundNormal(h: Headers, x: Option<Cv>)
    requires x.Some? ==> Normal(x.value) == x.value
    ensures Normal(Map(Build(HeadersAround(h, x)))) == Map(Build(HeadersAround(h, x)))
  {
    hide Build, OrderFrom, MapOf, NormalEntries, BytesList;
    BytesListWritten(h.cc);
    NormalAll(HeadersAround(h, x));
  }

  lemma AroundDecodable(h: Headers, x: Option<Cv>)
    requires x.Some? ==> Decodable(x.value, 2)
    ensures Decodable(Map(Build(HeadersAround(h, x))), 1)
  {
    hide Build, DistinctKeys, BytesList;
    BytesListDecodable(h.cc, 2);
    DecodableBuild(HeadersAround(h, x), 1);
  }

  lemma EmptyNormal()
    ensures Normal(Map([])) == Map([]) && Decodable(Map([]), 2)
  {
    assert NormalEntries(Map([])) == [];
  }

  lemma PayloadAroundNormal(p: Payload, hv: Cv)
    requires Normal(hv) == hv
    ensures Normal(Map(Build(PayloadAround(p, hv)))) == Map(Build(PayloadAround(p, hv)))
  {
    hide Build, BytesList, AttachList, OrderFrom, MapOf, NormalEntries;
    BytesListWritten(p.refs);
    AttachListWritten(p.attach);
    NormalAll(PayloadAround(p, hv));
  }

  lemma ExplicitPayloadRead(p: Payload)
    ensures PayloadFrom(ExplicitPayload(p)) == Ok(p.(headers := p.headers.(ext := [])))
    ensures Normal(ExplicitPayload(p)) == ExplicitPayload(p)
    ensures Decodable(ExplicitPayload(p), 0)
  {
    hide Build, PayloadFrom, HeadersFrom, ExplicitHeaders, BytesList, AttachList, Normal, DistinctKeys;
    var hv := ExplicitHeaders(p.headers);
    ExplicitHeadersRead(p.headers);
    PayloadAroundRead(p, hv, p.headers.(ext := []));
    PayloadAroundNormal(p, hv);
    BytesListDecodable(p.refs, 1);
    AttachListDecodable(p.attach, 1);
    DecodableBuild(PayloadAround(p, hv), 0);
  }

  /** Extension headers that a decoder can have returned: readable, in wire order. */
  ghost predicate AsDecoded(p: Payload) {
    HeadersReadable(p.headers) && NormalPayload(p) == p
  }

  /**
   Which bytes decode to a payload: what the encoder writes for it, and for a payload without extension headers
   also the form that spells the empty extension map out; nothing else.
   */
  lemma PayloadIff(b: Bytes, p: Payload)
    ensures PayloadOf(b) == Ok(p) <==>
            || (AsDecoded(p) && b == Encode(PayloadCv(p)) && Fits(PayloadCv(p)))
            || (p.headers.ext == [] && b == Encode(ExplicitPayload(p)) && Fits(ExplicitPayload(p)))
  {
    hide Encode, Decode, PayloadFrom, PayloadCv, ExplicitPayload, Fits, Normal, Decodable, HeadersReadable;
    hide NormalPayload;
    if PayloadOf(b) == Ok(p) {
      var v := Decode(b).value;
      DecodeExact(b, v);
      PayloadReadForms(v, p);
    }
    if AsDecoded(p) && Fits(PayloadCv(p)) {
      RoundTrip(PayloadCv(p));
      PayloadDecodable(p);
      PayloadWritten(p);
    }
    if p.headers.ext == [] && Fits(ExplicitPayload(p)) {
      ExplicitPayloadRead(p);
      RoundTrip(ExplicitPayload(p));
    }
  }

  lemma PayloadReadForms(v: Cv, p: Payload)
    requires Canonical(v, 0) && PayloadFrom(v) == Ok(p)
    ensures (AsDecoded(p) && v == PayloadCv(p)) || (p.headers.ext == [] && v == ExplicitPayload(p))
  {
    hide PayloadFrom, PayloadCv, Fits, Normal, Decodable, HeadersReadable, NormalPayload, Build, ExplicitHeaders;
    PayloadRead(v, 0);
    if v == PayloadCv(p) {
      PayloadDecodable(p);
      PayloadWritten(p);
    }
  }

  /** The two forms differ, so a payload without extension headers has exactly two. */
  lemma FormsDiffer(p: Payload)
    requires p.headers.ext == [] && Fits(PayloadCv(p)) && Fits(ExplicitPayload(p))
    ensures Encode(PayloadCv(p)) != Encode(ExplicitPayload(p))
  {
    hide Encode, Decode, Fits, Normal, Decodable, Build;
    if Encode(PayloadCv(p)) == Encode(ExplicitPayload(p)) {
      RoundTrip(PayloadCv(p));
      RoundTrip(ExplicitPayload(p));
      PayloadDecodable(p);
      ExplicitPayloadRead(p);
      PayloadNormalPlain(p);
      SlotsDiffer(p);
    }
  }

  lemma PayloadNormalPlain(p: Payload)
    requires p.headers.ext == []
    ensures Normal(PayloadCv(p)) == PayloadCv(p) && HeadersReadable(p.headers)
  {
    hide Build, Normal, HeadersAround;
    AroundNormal(p.headers, None);
    PayloadAroundNormal(p, HeadersCv(p.headers));
  }

  lemma SlotsDiffer(p: Payload)
    requires p.headers.ext == []
    ensures PayloadCv(p) != ExplicitPayload(p)
  {
    hide Build, BytesList, AttachList;
    if PayloadCv(p) == ExplicitPayload(p) {
      BuildInjective(PayloadSlots(p), PayloadAround(p, ExplicitHeaders(p.headers)));
      assert PayloadSlots(p)[2] == PayloadAround(p, ExplicitHeaders(p.headers))[2];
      BuildInjective(HeadersSlots(p.headers), HeadersAround(p.headers, Some(Map([]))));
    }
  }
}
