/** Every wire object of a MOTE reads back as it was written, up to the order of extension headers. */
module MoteCodec {
  import opened Prelude
  import opened CborValue
  import opened CborParse
  import opened CborCanon
  import opened CborFields
  import opened MoteTypes

  /** Extension headers as they come back: in wire order, with normal values. */
  function NormalExt(ext: seq<(Str, Cv)>): seq<(Str, Cv)> {
    var n := Normal(TextMap(ext));
    if n.TextMap? then n.t else []
  }

  function NormalHeaders(h: Headers): Headers {
    h.(ext := NormalExt(h.ext))
  }

  function NormalPayload(p: Payload): Payload {
    p.(headers := NormalHeaders(p.headers))
  }

  /** The `i`-th read of a decoder finds the `i`-th slot. */
  lemma TakeAt(t: seq<Slot>, i: nat)
    requires KeysAscend(t) && i < |t|
    ensures Take(Build(t[i..]), t[i].0) == (t[i].1, Build(t[i + 1..]))
  {
    hide Take, Build;
    TakeSlot(t[i..]);
    assert t[i..][1..] == t[i + 1..];
  }

  lemma BuildEnds(t: seq<Slot>)
    ensures Build(t[0..]) == Build(t) && Build(t[|t|..]) == []
  {
    assert t[0..] == t;
  }

  /** Optional fields read back as they were written. */
  lemma OptionalWritten<T>(x: Option<T>, w: T -> Cv, r: Cv -> Result<T, CborError>)
    requires x.Some? ==> r(w(x.value)) == Ok(x.value)
    ensures Optional(Opt(x, w), r) == Ok(x)
  {
  }

  lemma BytesListWritten(bs: seq<Bytes>)
    ensures Collect(BytesList(bs).a, AsBytes) == Ok(bs)
    ensures Normal(BytesList(bs)) == BytesList(bs)
  {
    CollectWritten(bs, BytesList(bs).a, AsBytes);
    assert Normal(BytesList(bs)).a == BytesList(bs).a;
  }

  /** Slots whose values are all normal build a normal map. */
  lemma NormalAll(t: seq<Slot>)
    requires KeysAscend(t)
    requires forall i | 0 <= i < |t| :: t[i].1.Some? ==> Normal(t[i].1.value) == t[i].1.value
    ensures Normal(Map(Build(t))) == Map(Build(t))
  {
    hide Normal;
    NormalBuild(t);
    forall i | 0 <= i < |t|
      ensures NormalSlots(t)[i] == t[i]
    {
    }
    assert NormalSlots(t) == t;
  }

  lemma DurabilityNormal(d: Durability)
    ensures Normal(DurabilityCv(d)) == DurabilityCv(d)
  {
    hide Build, OrderFrom, MapOf, NormalEntries;
    NormalAll(DurabilitySlots(d));
  }

  lemma DurabilityWritten(d: Durability)
    ensures DurabilityFrom(DurabilityCv(d)) == Ok(d)
    ensures Normal(DurabilityCv(d)) == DurabilityCv(d)
  {
    hide Take, Build, Optional, Opt, Normal;
    DurabilityNormal(d);
    var t := DurabilitySlots(d);
    BuildEnds(t);
    OptionalWritten(d.retention, UintCv, AsU64);
    OptionalWritten(d.replicas, U32Cv, AsU32Field);
    OptionalWritten(d.holderHint, TextCv, AsText);
    TakeAt(t, 0);
    TakeAt(t, 1);
    TakeAt(t, 2);
    TakeAt(t, 3);
  }

  lemma ManifestNormal(m: ManifestRef)
    ensures Normal(ManifestCv(m)) == ManifestCv(m)
  {
    hide Build, DurabilityFrom, DurabilityCv, OrderFrom, MapOf, NormalEntries;
    if m.durability.Some? {
      DurabilityWritten(m.durability.value);
    }
    NormalAll(ManifestSlots(m));
  }

  lemma ManifestWritten(m: ManifestRef)
    ensures ManifestFrom(ManifestCv(m)) == Ok(m)
    ensures Normal(ManifestCv(m)) == ManifestCv(m)
  {
    hide Take, Build, Optional, Opt, Normal, DurabilityFrom, DurabilityCv;
    if m.durability.Some? {
      DurabilityWritten(m.durability.value);
    }
    ManifestNormal(m);
    var t := ManifestSlots(m);
    BuildEnds(t);
    OptionalWritten(m.durability, DurabilityCv, DurabilityFrom);
    TakeAt(t, 0);
    TakeAt(t, 1);
    TakeAt(t, 2);
    TakeAt(t, 3);
  }

  lemma AttachmentNormal(a: Attachment)
    ensures Normal(AttachmentCv(a)) == AttachmentCv(a)
  {
    hide Build, ManifestFrom, ManifestCv, OrderFrom, MapOf, NormalEntries;
    if a.manifest.Some? {
      ManifestWritten(a.manifest.value);
    }
    NormalAll(AttachmentSlots(a));
  }

  lemma AttachmentWritten(a: Attachment)
    ensures AttachmentFrom(AttachmentCv(a)) == Ok(a)
    ensures Normal(AttachmentCv(a)) == AttachmentCv(a)
  {
    hide Take, Build, Optional, Opt, Normal, ManifestFrom, ManifestCv;
    if a.manifest.Some? {
      ManifestWritten(a.manifest.value);
    }
    AttachmentNormal(a);
    var t := AttachmentSlots(a);
    BuildEnds(t);
    OptionalWritten(a.inline, BstrCv, AsBytes);
    OptionalWritten(a.manifest, ManifestCv, ManifestFrom);
    TakeAt(t, 0);
    TakeAt(t, 1);
    TakeAt(t, 2);
    TakeAt(t, 3);
    TakeAt(t, 4);
    TakeAt(t, 5);
  }

  lemma AttachListWritten(attach: seq<Attachment>)
    ensures Collect(AttachList(attach).a, AttachmentFrom) == Ok(attach)
    ensures Normal(AttachList(attach)) == AttachList(attach)
  {
    hide AttachmentFrom, AttachmentCv;
    var vs := AttachList(attach).a;
    forall i | 0 <= i < |attach|
      ensures AttachmentFrom(vs[i]) == Ok(attach[i]) && Normal(vs[i]) == vs[i]
    {
      AttachmentWritten(attach[i]);
    }
    CollectWritten(attach, vs, AttachmentFrom);
    assert Normal(AttachList(attach)).a == vs;
  }

  /** A nonempty text map stays one when normalised. */
  lemma ExtNormal(ext: seq<(Str, Cv)>)
    requires ext != []
    ensures Normal(TextMap(ext)) == TextMap(NormalExt(ext)) && |NormalExt(ext)| == |ext|
  {
    hide OrderFrom;
    var es := NormalEntries(TextMap(ext));
    assert KindOf(es[0].0) == Some(TextKeys);
  }

  lemma ExtWritten(ext: seq<(Str, Cv)>)
    ensures ExtFrom(if ext == [] then None else Some(Normal(TextMap(ext)))) == Ok(NormalExt(ext))
  {
    hide OrderFrom;
    if ext != [] {
      ExtNormal(ext);
    } else {
      assert Count(TextMap([])) == 0;
    }
  }

  /** The headers' slots after normalising: only the extension headers change. */
  lemma HeadersSlotsNormal(h: Headers)
    ensures NormalSlots(HeadersSlots(h))
         == HeadersAround(h, if h.ext == [] then None else Some(Normal(TextMap(h.ext))))
  {
    hide OrderFrom, MapOf, NormalEntries;
    BytesListWritten(h.cc);
  }

  /** Headers read back with whatever their extension field reads as. */
  lemma HeadersAroundRead(h: Headers, x: Option<Cv>, ext: seq<(Str, Cv)>)
    requires ExtFrom(x) == Ok(ext)
    ensures HeadersFrom(Map(Build(HeadersAround(h, x)))) == Ok(h.(ext := ext))
  {
    hide Take, Build, Collect, BytesList, Optional, Opt, ExtFrom;
    OptionalWritten(h.thread, BstrCv, AsBytes);
    OptionalWritten(h.subject, TextCv, AsText);
    OptionalWritten(h.mime, TextCv, AsText);
    OptionalWritten(h.sensitive, BoolCv, AsBool);
    BytesListWritten(h.cc);
    BytesListIsArray(h.cc);
    var t := HeadersAround(h, x);
    BuildEnds(t);
    TakeAt(t, 0);
    TakeAt(t, 1);
    TakeAt(t, 2);
    TakeAt(t, 3);
    TakeAt(t, 4);
    TakeAt(t, 5);
  }

  lemma HeadersWritten(h: Headers)
    ensures HeadersFrom(Normal(HeadersCv(h))) == Ok(NormalHeaders(h))
  {
    hide Build, Normal, NormalExt, HeadersFrom, HeadersAround, NormalSlots, ExtFrom;
    var x := if h.ext == [] then None else Some(Normal(TextMap(h.ext)));
    HeadersKeys(h);
    NormalBuild(HeadersSlots(h));
    HeadersSlotsNormal(h);
    ExtWritten(h.ext);
    HeadersAroundRead(h, x, NormalExt(h.ext));
  }

  lemma HeadersKeys(h: Headers)
    ensures KeysAscend(HeadersSlots(h))
  {
  }

  lemma BytesListIsArray(bs: seq<Bytes>)
    ensures BytesList(bs).Array?
  {
  }

  /** The payload's slots after normalising: only the headers change. */
  lemma PayloadSlotsNormal(p: Payload)
    ensures NormalSlots(PayloadSlots(p)) == PayloadSlots(p)[2 := (3, Some(Normal(HeadersCv(p.headers))))]
    ensures NormalSlots(BodySlots(p)) == BodySlots(p)[1 := (3, Some(Normal(HeadersCv(p.headers))))]
  {
    hide OrderFrom, MapOf, NormalEntries, HeadersCv, AttachList, BytesList;
    BytesListWritten(p.refs);
    AttachListWritten(p.attach);
  }

  /** A payload reads back with whatever its headers read as. */
  lemma PayloadAroundRead(p: Payload, v: Cv, h: Headers)
    requires HeadersFrom(v) == Ok(h)
    ensures PayloadFrom(Map(Build(PayloadAround(p, v)))) == Ok(p.(headers := h))
  {
    hide Take, Build, Collect, BytesList, AttachList, HeadersFrom, AttachmentFrom, Optional, Opt;
    OptionalWritten(p.expires, UintCv, AsU64);
    BytesListWritten(p.refs);
    BytesListIsArray(p.refs);
    AttachListWritten(p.attach);
    AttachListIsArray(p.attach);
    var t := PayloadAround(p, v);
    BuildEnds(t);
    TakeAt(t, 0);
    TakeAt(t, 1);
    TakeAt(t, 2);
    TakeAt(t, 3);
    TakeAt(t, 4);
    TakeAt(t, 5);
    TakeAt(t, 6);
  }

  lemma PayloadWritten(p: Payload)
    ensures PayloadFrom(Normal(PayloadCv(p))) == Ok(NormalPayload(p))
  {
    hide Build, Normal, NormalHeaders, PayloadFrom, HeadersFrom, HeadersCv, BytesList, AttachList, NormalSlots;
    NormalBuild(PayloadSlots(p));
    PayloadSlotsNormal(p);
    HeadersWritten(p.headers);
    PayloadAroundRead(p, Normal(HeadersCv(p.headers)), NormalHeaders(p.headers));
    assert NormalSlots(PayloadSlots(p)) == PayloadAround(p, Normal(HeadersCv(p.headers)));
  }

  lemma AttachListIsArray(attach: seq<Attachment>)
    ensures AttachList(attach).Array?
  {
  }
}
