/**
 The byte strings that are signed and authenticated: raw concatenations of fields.  Each one determines
 its fields, because the codec is prefix-free.
 */
module MotePreimage {
  import opened Prelude
  import opened CborBytes
  import opened CborValue
  import opened CborParse
  import opened CborCanon
  import opened CborPrefix
  import opened CborFields
  import opened MoteTypes
  import opened MoteCodec
  import opened MoteWire

  /** `aad_bytes`. */
  function AadBytes(suite: Suite, kind: Kind, ts: U64, toCbor: Bytes): Bytes {
    [SuiteByte(suite)] + [KindByte(kind)] + BigEndian(ts, 8) + toCbor
  }

  /** `challenge_enc`: the challenge, or a CBOR null. */
  function ChallengeBytes(c: Option<ChallengeResponse>): Bytes {
    if c.None? then [0xF6] else Encode(ChallengeCv(c.value))
  }

  /** `sender_authed_bytes`, over the fields of the envelope that it covers. */
  function SenderAuthedBytes(id: Bytes, to: DeliveryTag, ts: U64, kind: Kind,
                             challenge: Option<ChallengeResponse>): Bytes {
    id + Encode(TagCv(to)) + BigEndian(ts, 8) + [KindByte(kind)] + ChallengeBytes(challenge)
  }

  /** The preimage of `payload_hash`. */
  function BoundPreimage(p: Payload, kind: Kind, ts: U64, toCbor: Bytes): Bytes {
    Encode(BodyCv(p)) + [KindByte(kind)] + BigEndian(ts, 8) + toCbor
  }

  /** The preimage of `payload_hash_unbound`. */
  function UnboundPreimage(p: Payload): Bytes {
    Encode(BodyCv(p))
  }

  ghost predicate TagFits(t: DeliveryTag) {
    Fits(TagCv(t))
  }

  ghost predicate ChallengeFits(c: Option<ChallengeResponse>) {
    c.Some? ==> Fits(ChallengeCv(c.value))
  }

  /** Two payloads with the same signed content, up to the order of extension headers. */
  ghost predicate SameContent(p: Payload, q: Payload) {
    NormalPayload(p).(sig := []) == NormalPayload(q).(sig := [])
  }

  // ---------------------------------------------------------------- layout

  /** The additional data, byte by byte: suite, kind, eight bytes of time, the rest. */
  lemma AadLayout(suite: Suite, kind: Kind, ts: U64, toCbor: Bytes)
    ensures var a := AadBytes(suite, kind, ts, toCbor);
      && |a| == 10 + |toCbor| && a[0] == SuiteByte(suite) && a[1] == KindByte(kind)
      && a[2..10] == BigEndian(ts, 8) && a[10..] == toCbor
  {
    hide BigEndian, KindByte, SuiteByte;
  }

  /** The sender's preimage: id, routing tag, eight bytes of time, kind, challenge or null. */
  lemma SenderLayout(id: Bytes, to: DeliveryTag, ts: U64, kind: Kind, challenge: Option<ChallengeResponse>)
    ensures var m, p := SenderAuthedBytes(id, to, ts, kind, challenge), |id|; var q := p + |Encode(TagCv(to))|;
      && At(m, 0, id) && At(m, p, Encode(TagCv(to))) && At(m, q, BigEndian(ts, 8)) && |m| > q + 8
      && m[q + 8] == KindByte(kind)
      && m[q + 9..] == (if challenge.None? then [0xF6] else Encode(ChallengeCv(challenge.value)))
  {
    hide Encode, BigEndian, KindByte, TagCv, ChallengeCv;
    var e, t, k, c := Encode(TagCv(to)), BigEndian(ts, 8), [KindByte(kind)], ChallengeBytes(challenge);
    var m := SenderAuthedBytes(id, to, ts, kind, challenge);
    assert m == id + e + t + k + c;
    assert m[..|id|] == id;
    assert m[|id|..|id| + |e|] == e;
    assert m[|id| + |e|..|id| + |e| + 8] == t;
  }

  /** The payload preimage: the signing body, kind, eight bytes of time, routing tag. */
  lemma BoundLayout(p: Payload, kind: Kind, ts: U64, toCbor: Bytes)
    ensures var m, n := BoundPreimage(p, kind, ts, toCbor), |Encode(BodyCv(p))|;
      && |m| == n + 9 + |toCbor| && m[..n] == Encode(BodyCv(p)) && m[n] == KindByte(kind)
      && m[n + 1..n + 9] == BigEndian(ts, 8) && m[n + 9..] == toCbor
  {
    hide Encode, BigEndian, KindByte, BodyCv;
  }

  /** `aad_bytes`, pushed field by field. */
  method PushAad(suite: Suite, kind: Kind, ts: U64, toCbor: Bytes) returns (a: Bytes)
    ensures a == AadBytes(suite, kind, ts, toCbor)
  {
    a := [SuiteByte(suite)];
    a := a + [KindByte(kind)];
    a := a + BigEndian(ts, 8);
    a := a + toCbor;
  }

  /** `sender_authed_bytes`, pushed field by field. */
  method PushSenderAuthed(env: Envelope) returns (m: Bytes)
    ensures m == SenderAuthedBytes(env.id, env.to, env.ts, env.kind, env.challenge)
  {
    m := env.id;
    m := m + Encode(TagCv(env.to));
    m := m + BigEndian(env.ts, 8);
    m := m + [KindByte(env.kind)];
    match env.challenge {
      case Some(c) =>
        m := m + Encode(ChallengeCv(c));
      case None =>
        m := m + [0xF6];
    }
  }

  /** The preimage of `payload_hash`, pushed field by field. */
  method PushBound(p: Payload, kind: Kind, ts: U64, toCbor: Bytes) returns (pre: Bytes)
    ensures pre == BoundPreimage(p, kind, ts, toCbor)
  {
    pre := Encode(BodyCv(p));
    pre := pre + [KindByte(kind)];
    pre := pre + BigEndian(ts, 8);
    pre := pre + toCbor;
  }

  // ---------------------------------------------------------------- building blocks

  lemma KindByteInjective(k: Kind, l: Kind)
    requires KindByte(k) == KindByte(l)
    ensures k == l
  {
  }

  lemma TimeInjective(s: U64, t: U64)
    requires BigEndian(s, 8) == BigEndian(t, 8)
    ensures s == t
  {
    Pow256Values();
    BigEndianRead(s, 8);
    BigEndianRead(t, 8);
  }

  /** Concatenations of equally long parts. */
  lemma SplitAt(a: Bytes, b: Bytes, x: Bytes, y: Bytes)
    requires |a| == |b| && a + x == b + y
    ensures a == b && x == y
  {
    assert a == (a + x)[..|a|] && b == (b + y)[..|b|];
    assert x == (a + x)[|a|..] && y == (b + y)[|b|..];
  }

  /** A delivery tag at the front of a byte string is read off unambiguously. */
  lemma TagInjective(t: DeliveryTag, u: DeliveryTag, x: Bytes, y: Bytes)
    requires TagFits(t) && TagFits(u)
    requires Encode(TagCv(t)) + x == Encode(TagCv(u)) + y
    ensures t == u && x == y
  {
    hide Build, Encode, Normal;
    PrefixFree(TagCv(t), TagCv(u), x, y);
    EncodeInjective(TagCv(t), TagCv(u));
    TagNormal(t);
    TagNormal(u);
    BuildInjective(TagSlots(t), TagSlots(u));
    assert TagSlots(t)[0] == TagSlots(u)[0] && TagSlots(t)[1] == TagSlots(u)[1];
  }

  /** The discriminator comes first. */
  lemma DiscFirst(c: ChallengeResponse)
    ensures Build(ChallengeSlots(c)) != [] && Build(ChallengeSlots(c))[0] == (0, Uint(Disc(c)))
  {
  }

  lemma ChallengeInjective(c: ChallengeResponse, d: ChallengeResponse)
    requires Fits(ChallengeCv(c)) && Fits(ChallengeCv(d))
    requires Encode(ChallengeCv(c)) == Encode(ChallengeCv(d))
    ensures c == d
  {
    hide Build, Encode, Normal, ChallengeSlots, Fits;
    ChallengeKeys(c);
    ChallengeKeys(d);
    EncodeInjective(ChallengeCv(c), ChallengeCv(d));
    ChallengeNormal(c);
    ChallengeNormal(d);
    DiscFirst(c);
    DiscFirst(d);
    var s, t := ChallengeSlots(c), ChallengeSlots(d);
    BuildInjective(s, t);
    SlotsDetermine(c, d);
  }

  lemma SlotsDetermine(c: ChallengeResponse, d: ChallengeResponse)
    requires Disc(c) == Disc(d) && ChallengeSlots(c) == ChallengeSlots(d)
    ensures c == d
  {
    var s, t := ChallengeSlots(c), ChallengeSlots(d);
    assert s[1] == t[1] && s[2] == t[2] && s[3] == t[3] && s[4] == t[4];
    if !c.Arc? {
      assert s[5] == t[5];
    }
    if c.Pow? {
      assert s[2].1.value.a == t[2].1.value.a;
      assert s[2].1.value.a[0] == t[2].1.value.a[0];
      assert s[2].1.value.a[1] == t[2].1.value.a[1] && s[2].1.value.a[2] == t[2].1.value.a[2];
    }
    if c.Postage? {
      assert s[6] == t[6] && s[7] == t[7];
    }
  }

  /** An absent challenge never collides with a present one, and a present one is determined. */
  lemma ChallengeBytesInjective(c: Option<ChallengeResponse>, d: Option<ChallengeResponse>)
    requires ChallengeFits(c) && ChallengeFits(d)
    requires ChallengeBytes(c) == ChallengeBytes(d)
    ensures c == d
  {
    hide Encode, Build;
    if c.Some? {
      MajorRead(ChallengeCv(c.value));
    }
    if d.Some? {
      MajorRead(ChallengeCv(d.value));
    }
    if c.Some? && d.Some? {
      ChallengeInjective(c.value, d.value);
    }
  }

  // ---------------------------------------------------------------- the three preimages

  /** The additional authenticated data determines suite, kind, time and routing tag. */
  lemma AadInjective(s: Suite, k: Kind, ts: U64, t: DeliveryTag, s': Suite, k': Kind, ts': U64, t': DeliveryTag)
    requires TagFits(t) && TagFits(t')
    requires AadBytes(s, k, ts, Encode(TagCv(t))) == AadBytes(s', k', ts', Encode(TagCv(t')))
    ensures s == s' && k == k' && ts == ts' && t == t'
  {
    hide Encode, BigEndian, KindByte;
    var e, e' := Encode(TagCv(t)), Encode(TagCv(t'));
    var h, h' := [SuiteByte(s)] + [KindByte(k)], [SuiteByte(s')] + [KindByte(k')];
    SplitAt(h + BigEndian(ts, 8), h' + BigEndian(ts', 8), e, e');
    SplitAt(h, h', BigEndian(ts, 8), BigEndian(ts', 8));
    assert h[0] == h'[0] && h[1] == h'[1];
    KindByteInjective(k, k');
    TimeInjective(ts, ts');
    assert e + [] == e && e' + [] == e';
    TagInjective(t, t', [], []);
  }

  /** The sender signature's preimage determines everything it covers, given ids of one length. */
  lemma SenderAuthedInjective(
    id: Bytes, t: DeliveryTag, ts: U64, k: Kind, c: Option<ChallengeResponse>,
    id': Bytes, t': DeliveryTag, ts': U64, k': Kind, c': Option<ChallengeResponse>)
    requires |id| == |id'|
    requires TagFits(t) && TagFits(t') && ChallengeFits(c) && ChallengeFits(c')
    requires SenderAuthedBytes(id, t, ts, k, c) == SenderAuthedBytes(id', t', ts', k', c')
    ensures id == id' && t == t' && ts == ts' && k == k' && c == c'
  {
    hide Encode, BigEndian, KindByte, ChallengeBytes, TagCv, Fits, ChallengeFits;
    var e, e' := Encode(TagCv(t)), Encode(TagCv(t'));
    var b, b' := BigEndian(ts, 8), BigEndian(ts', 8);
    var y, y' := ChallengeBytes(c), ChallengeBytes(c');
    assert SenderAuthedBytes(id, t, ts, k, c) == id + (e + (b + [KindByte(k)] + y));
    assert SenderAuthedBytes(id', t', ts', k', c') == id' + (e' + (b' + [KindByte(k')] + y'));
    SplitAt(id, id', e + (b + [KindByte(k)] + y), e' + (b' + [KindByte(k')] + y'));
    TagInjective(t, t', b + [KindByte(k)] + y, b' + [KindByte(k')] + y');
    SplitAt(b + [KindByte(k)], b' + [KindByte(k')], y, y');
    SplitAt(b, b', [KindByte(k)], [KindByte(k')]);
    KindByteInjective(k, k');
    TimeInjective(ts, ts');
    ChallengeBytesInjective(c, c');
  }

  lemma HeadersDetermined(h: Headers, g: Headers)
    requires Normal(HeadersCv(h)) == Normal(HeadersCv(g))
    ensures NormalHeaders(h) == NormalHeaders(g)
  {
    hide Normal, HeadersCv, HeadersFrom, NormalHeaders;
    HeadersWritten(h);
    HeadersWritten(g);
  }

  lemma ListsDetermined(p: Payload, q: Payload)
    requires BytesList(p.refs) == BytesList(q.refs) && AttachList(p.attach) == AttachList(q.attach)
    ensures p.refs == q.refs && p.attach == q.attach
  {
    hide BytesList, AttachList, Collect, AttachmentFrom, Normal;
    BytesListWritten(p.refs);
    BytesListWritten(q.refs);
    AttachListWritten(p.attach);
    AttachListWritten(q.attach);
  }

  /** Equal slots of two bodies, field by field. */
  lemma BodySlotsDetermine(p: Payload, q: Payload)
    requires NormalSlots(BodySlots(p)) == NormalSlots(BodySlots(q))
    ensures p.from == q.from && Normal(HeadersCv(p.headers)) == Normal(HeadersCv(q.headers)) && p.body == q.body
    ensures BytesList(p.refs) == BytesList(q.refs) && AttachList(p.attach) == AttachList(q.attach)
    ensures p.expires == q.expires
  {
    hide BytesList, AttachList, HeadersCv, Normal;
    PayloadSlotsNormal(p);
    PayloadSlotsNormal(q);
    var s, t := NormalSlots(BodySlots(p)), NormalSlots(BodySlots(q));
    assert s[0] == t[0] && s[1] == t[1] && s[2] == t[2];
    assert s[3] == t[3] && s[4] == t[4] && s[5] == t[5];
  }

  /** The signed body of a payload determines its content. */
  lemma BodyInjective(p: Payload, q: Payload)
    requires Fits(BodyCv(p)) && Fits(BodyCv(q))
    requires Encode(BodyCv(p)) == Encode(BodyCv(q))
    ensures SameContent(p, q)
  {
    hide Build, Encode, Normal, BytesList, AttachList, HeadersCv, NormalHeaders, NormalSlots;
    EncodeInjective(BodyCv(p), BodyCv(q));
    NormalBuild(BodySlots(p));
    NormalBuild(BodySlots(q));
    SlotsKeep(BodySlots(p));
    SlotsKeep(BodySlots(q));
    BuildInjective(NormalSlots(BodySlots(p)), NormalSlots(BodySlots(q)));
    BodySlotsDetermine(p, q);
    HeadersDetermined(p.headers, q.headers);
    ListsDetermined(p, q);
  }

  /** Normalising slots keeps their keys. */
  lemma SlotsKeep(t: seq<Slot>)
    ensures |NormalSlots(t)| == |t| && forall i | 0 <= i < |t| :: NormalSlots(t)[i].0 == t[i].0
  {
  }

  /** The payload hash's preimage determines the content, the kind, the time and the routing tag. */
  lemma BoundInjective(p: Payload, k: Kind, ts: U64, t: DeliveryTag, q: Payload, k': Kind, ts': U64, t': DeliveryTag)
    requires Fits(BodyCv(p)) && Fits(BodyCv(q)) && TagFits(t) && TagFits(t')
    requires BoundPreimage(p, k, ts, Encode(TagCv(t))) == BoundPreimage(q, k', ts', Encode(TagCv(t')))
    ensures SameContent(p, q) && k == k' && ts == ts' && t == t'
  {
    hide Encode, BigEndian, KindByte, BodyCv, SameContent;
    var e, e' := Encode(TagCv(t)), Encode(TagCv(t'));
    var b, b' := BigEndian(ts, 8), BigEndian(ts', 8);
    var f, f' := Encode(BodyCv(p)), Encode(BodyCv(q));
    assert BoundPreimage(p, k, ts, e) == f + ([KindByte(k)] + b + e);
    assert BoundPreimage(q, k', ts', e') == f' + ([KindByte(k')] + b' + e');
    PrefixFree(BodyCv(p), BodyCv(q), [KindByte(k)] + b + e, [KindByte(k')] + b' + e');
    BodyInjective(p, q);
    SplitAt([KindByte(k)] + b, [KindByte(k')] + b', e, e');
    SplitAt([KindByte(k)], [KindByte(k')], b, b');
    KindByteInjective(k, k');
    TimeInjective(ts, ts');
    assert e + [] == e && e' + [] == e';
    TagInjective(t, t', [], []);
  }

  /** A signature over a payload alone is never one over a payload in a context, whatever the context. */
  lemma BoundIsNeverUnbound(p: Payload, k: Kind, ts: U64, toCbor: Bytes, q: Payload)
    requires Fits(BodyCv(p)) && Fits(BodyCv(q))
    ensures BoundPreimage(p, k, ts, toCbor) != UnboundPreimage(q)
  {
    hide Encode, BigEndian, KindByte, BodyCv;
    var f, f' := Encode(BodyCv(p)), Encode(BodyCv(q));
    var x := [KindByte(k)] + BigEndian(ts, 8) + toCbor;
    assert BoundPreimage(p, k, ts, toCbor) == f + x && f' + [] == f';
    if f + x == f' + [] {
      PrefixFree(BodyCv(p), BodyCv(q), x, []);
    }
  }
}
