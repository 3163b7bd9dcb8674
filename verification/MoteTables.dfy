/** The wire tables: under which key each field of an object travels, with every optional field present. */
module MoteTables {
  import opened Prelude
  import opened CborValue
  import opened CborParse
  import opened CborFields
  import opened MoteTypes

  // ---------------------------------------------------------------- errors

  /** A required key that is missing, a key that is left over, and a field of the wrong type or size. */
  lemma FieldErrors(m: FieldMap, k: U64, v: Cv)
    ensures (forall i | 0 <= i < |m| :: m[i].0 != k) ==> Req(m, k) == Err(MissingKey(k))
    ensures m != [] ==> DenyUnknown(m) == Err(UnknownKey(m[0].0))
    ensures !v.Map? ==> FieldsOf(v) == Err(TypeMismatch)
    ensures !v.Uint? ==> AsU64(v) == AsU8(v) == AsUint32(v) == Err(TypeMismatch)
    ensures v.Uint? && v.n > 255 ==> AsU8(v) == Err(IntRange)
    ensures v.Uint? && v.n > 0xFFFF_FFFF ==> AsUint32(v) == Err(IntRange)
  {
    if forall i | 0 <= i < |m| :: m[i].0 != k {
      TakeAbsent(m, k);
    }
  }

  /** Bytes and discriminators without a meaning. */
  lemma UnknownErrors(b: Byte, d: U64, x: Bytes)
    ensures !(1 <= b <= 5) ==> SuiteFrom(Uint(b)) == Err(UnknownSuite(b))
    ensures !(b <= 0x0B || 0x40 <= b <= 0x44) ==> KindFrom(Uint(b)) == Err(UnknownDiscriminant(0))
    ensures !(1 <= d <= 3) ==> TagFrom(Map([(0, Uint(d)), (1, Bstr(x))])) == Err(UnknownDiscriminant(d))
    ensures !(1 <= d <= 4) ==> ChallengeFrom(Map([(0, Uint(d))])) == Err(UnknownDiscriminant(d))
  {
    var m: FieldMap := [(0, Uint(d)), (1, Bstr(x))];
    var rest: FieldMap := [(1, Bstr(x))];
    assert m == [(0, Uint(d))] + rest && rest == [(1, Bstr(x))] + [];
    TakeFirst(0, Uint(d), rest);
    TakeFirst(1, Bstr(x), []);
  }

  // ---------------------------------------------------------------- tables

  /** Slots that are all present are built as they stand. */
  lemma {:induction false} BuildPresent(t: seq<Slot>)
    requires forall i | 0 <= i < |t| :: t[i].1.Some?
    ensures Build(t) == seq(|t|, i requires 0 <= i < |t| => (t[i].0, t[i].1.value))
  {
    if t != [] {
      BuildPresent(t[1..]);
    }
  }

  lemma TagTable(b: Bytes)
    ensures TagCv(KeyTag(b)) == Map([(0, Uint(1)), (1, Bstr(b))])
    ensures TagCv(GroupTag(b)) == Map([(0, Uint(2)), (1, Bstr(b))])
    ensures TagCv(BlindedTag(b)) == Map([(0, Uint(3)), (1, Bstr(b))])
  {
    hide Build;
    BuildPresent(TagSlots(KeyTag(b)));
    BuildPresent(TagSlots(GroupTag(b)));
    BuildPresent(TagSlots(BlindedTag(b)));
  }

  lemma ArcTable(issuer: Bytes, token: Bytes, origin: Bytes, nonce: Bytes)
    ensures ChallengeCv(Arc(issuer, token, origin, Some(nonce))) ==
            Map([(0, Uint(1)), (1, Bstr(issuer)), (2, Bstr(token)), (3, Bstr(origin)), (4, Bstr(nonce))])
  {
    hide Build;
    BuildPresent(ChallengeSlots(Arc(issuer, token, origin, Some(nonce))));
  }

  lemma PowTable(algo: Str, m: U32, iters: U32, lanes: U32, epochNonce: Bytes, solution: Bytes, difficulty: Byte)
    ensures ChallengeCv(Pow(algo, m, iters, lanes, epochNonce, solution, difficulty)) ==
            Map([(0, Uint(2)), (1, Text(algo)), (2, Array([Uint(m), Uint(iters), Uint(lanes)])),
                 (3, Bstr(epochNonce)), (4, Bstr(solution)), (5, Uint(difficulty))])
  {
    hide Build;
    BuildPresent(ChallengeSlots(Pow(algo, m, iters, lanes, epochNonce, solution, difficulty)));
  }

  lemma PostageTable(issuer: Bytes, serial: Bytes, amount: U64, currency: Str, expiry: U64, audience: Bytes, sig: Bytes)
    ensures ChallengeCv(Postage(issuer, serial, amount, currency, expiry, Some(audience), sig)) ==
            Map([(0, Uint(3)), (1, Bstr(issuer)), (2, Bstr(serial)), (3, Uint(amount)), (4, Text(currency)),
                 (5, Uint(expiry)), (6, Bstr(audience)), (7, Bstr(sig))])
  {
    hide Build;
    BuildPresent(ChallengeSlots(Postage(issuer, serial, amount, currency, expiry, Some(audience), sig)));
  }

  lemma VouchTable(voucher: Bytes, subject: Bytes, recipient: Bytes, exp: U64, sig: Bytes)
    ensures ChallengeCv(Vouch(voucher, subject, recipient, exp, sig)) ==
            Map([(0, Uint(4)), (1, Bstr(voucher)), (2, Bstr(subject)), (3, Bstr(recipient)), (4, Uint(exp)),
                 (5, Bstr(sig))])
  {
    hide Build;
    BuildPresent(ChallengeSlots(Vouch(voucher, subject, recipient, exp, sig)));
  }

  lemma DurabilityTable(d: Durability)
    requires d.retention.Some? && d.replicas.Some? && d.holderHint.Some?
    ensures DurabilityCv(d) ==
            Map([(1, Uint(ClassByte(d.cls))), (2, Uint(d.retention.value)), (3, Uint(d.replicas.value)),
                 (4, Text(d.holderHint.value))])
    ensures ClassByte(OriginHold) == 0 && ClassByte(RecipientPinned) == 1
    ensures ClassByte(ClusterReplicated) == 2 && ClassByte(Pinned) == 3
  {
    hide Build;
    BuildPresent(DurabilitySlots(d));
  }

  lemma ManifestTable(m: ManifestRef)
    requires m.durability.Some?
    ensures ManifestCv(m) ==
            Map([(1, Bstr(m.id)), (2, Uint(m.size)), (3, Uint(m.chunks)), (4, DurabilityCv(m.durability.value))])
  {
    hide Build;
    BuildPresent(ManifestSlots(m));
  }

  lemma AttachmentTable(a: Attachment)
    requires a.inline.Some? && a.manifest.Some?
    ensures AttachmentCv(a) ==
            Map([(1, Text(a.name)), (2, Text(a.mime)), (3, Uint(a.size)), (4, Bstr(a.inline.value)),
                 (5, ManifestCv(a.manifest.value)), (6, Bstr(a.key))])
  {
    hide Build;
    BuildPresent(AttachmentSlots(a));
  }

  lemma HeadersTable(h: Headers)
    requires h.thread.Some? && h.subject.Some? && h.mime.Some? && h.ext != [] && h.sensitive.Some?
    ensures HeadersCv(h) ==
            Map([(1, Bstr(h.thread.value)), (2, Text(h.subject.value)), (3, Text(h.mime.value)), (4, BytesList(h.cc)),
                 (5, TextMap(h.ext)), (6, Bool(h.sensitive.value))])
  {
    hide Build;
    BuildPresent(HeadersSlots(h));
  }

  lemma PayloadTable(p: Payload)
    requires p.expires.Some?
    ensures PayloadCv(p) ==
            Map([(1, Bstr(p.from)), (2, Bstr(p.sig)), (3, HeadersCv(p.headers)), (4, Bstr(p.body)),
                 (5, BytesList(p.refs)), (6, AttachList(p.attach)), (7, Uint(p.expires.value))])
    ensures BodyCv(p) ==
            Map([(1, Bstr(p.from)), (3, HeadersCv(p.headers)), (4, Bstr(p.body)), (5, BytesList(p.refs)),
                 (6, AttachList(p.attach)), (7, Uint(p.expires.value))])
  {
    hide Build;
    BuildPresent(PayloadSlots(p));
    BuildPresent(BodySlots(p));
  }

  lemma KeyPackageTable(k: KeyPackageRef)
    requires k.loc.Some?
    ensures KeyPackageCv(k) == Map([(1, Bstr(k.reference)), (2, Uint(SuiteByte(k.suite))), (3, Text(k.loc.value))])
  {
    hide Build;
    BuildPresent(KeyPackageSlots(k));
  }

  lemma EnvelopeTable(e: Envelope)
    requires e.epoch.Some? && e.keypkg.Some? && e.challenge.Some? && e.senderSig.Some? && e.senderEph.Some?
    ensures EnvelopeCv(e) ==
            Map([(1, Uint(e.v)), (2, Uint(SuiteByte(e.suite))), (3, Bstr(e.id)), (4, TagCv(e.to)),
                 (5, Bstr(e.epoch.value)), (6, Uint(e.ts)), (7, Uint(KindByte(e.kind))),
                 (8, KeyPackageCv(e.keypkg.value)), (9, ChallengeCv(e.challenge.value)), (10, Bstr(e.ciphertext)),
                 (11, Bstr(e.senderSig.value)), (12, Bstr(e.senderEph.value))])
  {
    hide Build;
    BuildPresent(EnvelopeSlots(e));
  }
}
