/**
 Building and validating a MOTE.  Hashing, signing and sealing are parameters; what is assumed of them
 is written out where a result needs it.
 */
module MotePipeline {
  import opened Prelude
  import opened CborValue
  import opened CborParse
  import opened CborCanon
  import opened CborExact
  import opened CborRoundTrip
  import opened CborPrefix
  import opened CborFields
  import opened MoteTypes
  import opened MoteCodec
  import opened MoteWire
  import opened MotePreimage

  const MOTE_VERSION: Byte := 0

  const PAYLOAD_SIG_DS: Bytes := DomainTag("DMTAP-v0/payload")

  const ENVELOPE_SENDER_DS: Bytes := DomainTag("DMTAP-v0/envelope-sender")

  datatype MoteError =
    | UnknownVersion(v: Byte)
    | UnsupportedSuite(suite: Byte)
    | BadContentAddress
    | NotForUs
    | MissingSenderKey
    | BadSignature
    | EnvelopeContextMismatch
    | VouchSubjectMismatch
    | DecryptFailed
    | SealFailed
    | BadKey
    | FileManifestInvalid
    | SizeTierViolation
    | Cbor(cause: CborError)

  /** The cryptography: BLAKE3, the two signature suites, the two sealers. */
  datatype Primitives = Primitives(
    hash: Bytes -> Bytes,
    public: (Suite, nat) -> Bytes,
    sign: (Suite, nat, Bytes) -> Bytes,
    verify: (Suite, Bytes, Bytes, Bytes) -> bool,
    sealPublic: Bytes -> Bytes,
    seal: (Bytes, Bytes, Bytes, nat) -> Result<Bytes, MoteError>,
    open: (Bytes, Bytes, Bytes) -> Result<Bytes, MoteError>)

  /** What honest cryptography does: 32-byte digests, own signatures verify, sealed payloads open. */
  ghost predicate Works(c: Primitives) {
    && (forall x :: |c.hash(x)| == 32)
    && (forall s, k, m :: c.verify(s, c.public(s, k), m, c.sign(s, k, m)))
    && (forall sk, aad, pt, r ::
          c.seal(c.sealPublic(sk), aad, pt, r).Ok? ==>
            c.open(sk, aad, c.seal(c.sealPublic(sk), aad, pt, r).value) == Ok(pt))
  }

  datatype MoteDraft = MoteDraft(
    kind: Kind, ts: U64, headers: Headers, body: Bytes, refs: seq<Bytes>, attach: seq<Attachment>,
    expires: Option<U64>, epoch: Option<Bytes>, keypkg: Option<KeyPackageRef>, challenge: Option<ChallengeResponse>)

  datatype RecipientCtx = RecipientCtx(ourIk: Bytes, sealSecret: Bytes, senderIsKnown: bool)

  datatype Outcome = Accepted(payload: Payload) | Deferred

  // ---------------------------------------------------------------- attachments

  function ValidateDurability(d: Durability): Result<(), MoteError> {
    match d.cls
    case Unknown(_) => Err(FileManifestInvalid)
    case ClusterReplicated => if d.replicas.Some? && d.replicas.value >= 1 then Ok(()) else Err(FileManifestInvalid)
    case Pinned => if d.retention.Some? then Ok(()) else Err(FileManifestInvalid)
    case _ => Ok(())
  }

  function ValidateManifest(m: ManifestRef): Result<(), MoteError> {
    if m.durability.None? then
      if m.size > ATTACHED_TIER_MAX then Err(FileManifestInvalid) else Ok(())
    else ValidateDurability(m.durability.value)
  }

  /** `check_delivery_tier`. */
  function CheckDeliveryTier(a: Attachment): Result<(), MoteError> {
    if a.inline.Some? && a.manifest.None? then
      if a.size > INLINE_TIER_MAX || |a.inline.value| != a.size then Err(SizeTierViolation) else Ok(())
    else if a.inline.None? && a.manifest.Some? then
      if a.size <= INLINE_TIER_MAX then Err(SizeTierViolation) else ValidateManifest(a.manifest.value)
    else Err(SizeTierViolation)
  }

  /** The first failing attachment decides. */
  function CheckTiers(attach: seq<Attachment>): Result<(), MoteError> {
    if attach == [] then Ok(())
    else
      var _ :- CheckDeliveryTier(attach[0]);
      CheckTiers(attach[1..])
  }

  /**
   Bytes inline up to 64 KiB, otherwise by manifest, and beyond 25 MiB only with a durability that names its
   terms.
   */
  predicate WithinTier(a: Attachment) {
    match (a.inline, a.manifest)
    case (Some(bytes), None) => |bytes| == a.size <= 65_536
    case (None, Some(ManifestRef(_, size, _, None))) => 65_536 < a.size && size <= 26_214_400
    case (None, Some(ManifestRef(_, _, _, Some(d)))) =>
      && 65_536 < a.size && !d.cls.Unknown?
      && (d.cls.Pinned? ==> d.retention.Some?)
      && (d.cls.ClusterReplicated? ==> d.replicas.Some? && d.replicas.value > 0)
    case _ => false
  }

  /** The tier check passes exactly if every attachment is within its tier. */
  lemma {:induction false} TiersEnforced(attach: seq<Attachment>)
    ensures CheckTiers(attach).Ok? <==> forall i | 0 <= i < |attach| :: WithinTier(attach[i])
  {
    if attach != [] {
      TiersEnforced(attach[1..]);
      assert forall i | 1 <= i < |attach| :: attach[i] == attach[1..][i - 1];
      assert CheckDeliveryTier(attach[0]).Ok? <==> WithinTier(attach[0]);
    }
  }

  // ---------------------------------------------------------------- building

  function ContentIdOf(c: Primitives, b: Bytes): Bytes {
    [0x1E] + c.hash(b)
  }

  function ContentIdVerify(c: Primitives, id: Bytes, b: Bytes): bool {
    |id| == 33 && id[0] == 0x1E && c.hash(b) == id[1..]
  }

  /** The payload of a draft under its identity signature, which covers the routing context. */
  function SignedPayload(c: Primitives, suite: Suite, sender: nat, to: DeliveryTag, draft: MoteDraft): Payload {
    var p := Payload(c.public(suite, sender), [], draft.headers, draft.body, draft.refs, draft.attach, draft.expires);
    p.(sig := c.sign(suite, sender, PAYLOAD_SIG_DS + c.hash(BoundPreimage(p, draft.kind, draft.ts, Encode(TagCv(to))))))
  }

  /** The envelope around a ciphertext under its ephemeral signature. */
  function SignedEnvelope(c: Primitives, suite: Suite, eph: nat, to: DeliveryTag, draft: MoteDraft,
                          ciphertext: Bytes): Envelope {
    var id := ContentIdOf(c, ciphertext);
    var authed := SenderAuthedBytes(id, to, draft.ts, draft.kind, draft.challenge);
    Envelope(MOTE_VERSION, suite, id, to, draft.epoch, draft.ts, draft.kind, draft.keypkg, draft.challenge, ciphertext,
             Some(c.sign(suite, eph, ENVELOPE_SENDER_DS + authed)), Some(c.public(suite, eph)))
  }

  /** What building yields: the tier check, then the sealed and doubly signed envelope. */
  function Built(c: Primitives, suite: Suite, sender: nat, eph: nat, recipientIk: Bytes, sealPub: Bytes,
                 draft: MoteDraft, rnd: nat)
    : Result<Envelope, MoteError>
  {
    var to := KeyTag(recipientIk);
    var _ :- CheckTiers(draft.attach);
    var p := SignedPayload(c, suite, sender, to, draft);
    var aad := AadBytes(suite, draft.kind, draft.ts, Encode(TagCv(to)));
    var ciphertext :- c.seal(sealPub, aad, Encode(PayloadCv(p)), rnd);
    Ok(SignedEnvelope(c, suite, eph, to, draft, ciphertext))
  }

  /** `build_mote` and `build_mote_hybrid`, which differ in the suite only: fill in one signature after the other. */
  method BuildMote(c: Primitives, suite: Suite, sender: nat, eph: nat, recipientIk: Bytes, sealPub: Bytes,
                   draft: MoteDraft, rnd: nat)
    returns (r: Result<Envelope, MoteError>)
    ensures r == Built(c, suite, sender, eph, recipientIk, sealPub, draft, rnd)
  {
    var to := KeyTag(recipientIk);
    var toCbor := Encode(TagCv(to));
    for i := 0 to |draft.attach|
      invariant CheckTiers(draft.attach) == CheckTiers(draft.attach[i..])
    {
      var tier := CheckDeliveryTier(draft.attach[i]);
      if tier.Err? {
        return Err(tier.error);
      }
      assert draft.attach[i..][1..] == draft.attach[i + 1..];
    }
    var payload := Payload(
      c.public(suite, sender), [], draft.headers, draft.body, draft.refs, draft.attach, draft.expires);
    var pre := PushBound(payload, draft.kind, draft.ts, toCbor);
    var ph := c.hash(pre);
    payload := payload.(sig := c.sign(suite, sender, PAYLOAD_SIG_DS + ph));
    var pt := Encode(PayloadCv(payload));
    var aad := PushAad(suite, draft.kind, draft.ts, toCbor);
    var ciphertext := c.seal(sealPub, aad, pt, rnd);
    if ciphertext.Err? {
      return Err(ciphertext.error);
    }
    var id := ContentIdOf(c, ciphertext.value);
    var env := Envelope(MOTE_VERSION, suite, id, to, draft.epoch, draft.ts, draft.kind, draft.keypkg, draft.challenge,
                        ciphertext.value, None, Some(c.public(suite, eph)));
    var authed := PushSenderAuthed(env);
    env := env.(senderSig := Some(c.sign(suite, eph, ENVELOPE_SENDER_DS + authed)));
    return Ok(env);
  }

  // ---------------------------------------------------------------- validating

  /** `verify_sig_for_suite`. */
  function VerifySig(c: Primitives, suite: Suite, pk: Bytes, domain: Bytes, msg: Bytes, sig: Bytes)
    : Result<(), MoteError>
  {
    if !MoteSupported(suite) then Err(UnsupportedSuite(SuiteByte(suite)))
    else if c.verify(suite, pk, domain + msg, sig) then Ok(())
    else Err(BadSignature)
  }

  /** Steps 1 to 4: version, suite, content address, ephemeral signature, routing. */
  function ValidateHeader(c: Primitives, env: Envelope, ctx: RecipientCtx): Result<(), MoteError> {
    if env.v != MOTE_VERSION then Err(UnknownVersion(env.v))
    else if !MoteSupported(env.suite) then Err(UnsupportedSuite(SuiteByte(env.suite)))
    else if !ContentIdVerify(c, env.id, env.ciphertext) then Err(BadContentAddress)
    else if env.senderSig.None? then Err(BadSignature)
    else if env.senderEph.None? then Err(MissingSenderKey)
    else
      var authed := SenderAuthedBytes(env.id, env.to, env.ts, env.kind, env.challenge);
      var _ :- VerifySig(c, env.suite, env.senderEph.value, ENVELOPE_SENDER_DS, authed, env.senderSig.value);
      if env.to != KeyTag(ctx.ourIk) then Err(NotForUs) else Ok(())
  }

  /** Step 8: the identity signature over the received context, and the vouch's subject. */
  function ValidatePayload(c: Primitives, env: Envelope, payload: Payload): Result<Outcome, MoteError> {
    var ph := c.hash(BoundPreimage(payload, env.kind, env.ts, Encode(TagCv(env.to))));
    if VerifySig(c, env.suite, payload.from, PAYLOAD_SIG_DS, ph, payload.sig).Err? then
      if VerifySig(c, env.suite, payload.from, PAYLOAD_SIG_DS, c.hash(UnboundPreimage(payload)), payload.sig).Ok?
      then Err(EnvelopeContextMismatch) else Err(BadSignature)
    else if env.challenge.Some? && env.challenge.value.Vouch? && payload.from != env.challenge.value.subject then
      Err(VouchSubjectMismatch)
    else Ok(Accepted(payload))
  }

  /** `validate`: cheap checks, the anti-abuse gate, decryption, authentication. */
  function Validate(c: Primitives, env: Envelope, ctx: RecipientCtx): Result<Outcome, MoteError> {
    var _ :- ValidateHeader(c, env, ctx);
    if !ctx.senderIsKnown && env.challenge.None? then Ok(Deferred)
    else
      var aad := AadBytes(env.suite, env.kind, env.ts, Encode(TagCv(env.to)));
      var pt :- c.open(ctx.sealSecret, aad, env.ciphertext);
      match Decode(pt)
      case Err(e) => Err(Cbor(e))
      case Ok(v) =>
        match PayloadFrom(v)
        case Err(e) => Err(Cbor(e))
        case Ok(payload) => ValidatePayload(c, env, payload)
  }

  // ---------------------------------------------------------------- decodable payloads

  /** Extension headers the receiver can read: distinct keys, and within the nesting bound from level 2 on. */
  ghost predicate HeadersReadable(h: Headers) {
    h.ext == [] || Decodable(TextMap(h.ext), 2)
  }

  lemma BytesListDecodable(bs: seq<Bytes>, d: nat)
    requires d < MAX_NESTING_DEPTH
    ensures Decodable(BytesList(bs), d)
  {
  }

  lemma DurabilityDecodable(x: Durability, d: nat)
    requires d < MAX_NESTING_DEPTH
    ensures Decodable(DurabilityCv(x), d)
  {
    hide Build, DistinctKeys;
    DecodableBuild(DurabilitySlots(x), d);
  }

  lemma ManifestDecodable(x: ManifestRef, d: nat)
    requires d + 1 < MAX_NESTING_DEPTH
    ensures Decodable(ManifestCv(x), d)
  {
    hide Build, DistinctKeys, DurabilityCv;
    if x.durability.Some? {
      DurabilityDecodable(x.durability.value, d + 1);
    }
    DecodableBuild(ManifestSlots(x), d);
  }

  lemma AttachmentDecodable(x: Attachment, d: nat)
    requires d + 2 < MAX_NESTING_DEPTH
    ensures Decodable(AttachmentCv(x), d)
  {
    hide Build, DistinctKeys, ManifestCv;
    if x.manifest.Some? {
      ManifestDecodable(x.manifest.value, d + 1);
    }
    DecodableBuild(AttachmentSlots(x), d);
  }

  lemma AttachListDecodable(attach: seq<Attachment>, d: nat)
    requires d + 3 < MAX_NESTING_DEPTH
    ensures Decodable(AttachList(attach), d)
  {
    hide AttachmentCv, DistinctKeys;
    forall i | 0 <= i < |attach|
      ensures Decodable(AttachList(attach).a[i], d + 1)
    {
      AttachmentDecodable(attach[i], d + 1);
    }
  }

  lemma HeadersDecodable(h: Headers)
    ensures Decodable(HeadersCv(h), 1) <==> HeadersReadable(h)
  {
    hide Build, DistinctKeys, BytesList;
    BytesListDecodable(h.cc, 2);
    DecodableBuild(HeadersSlots(h), 1);
    assert HeadersSlots(h)[4] == (5, if h.ext == [] then None else Some(TextMap(h.ext)));
  }

  /** A payload can be decoded exactly if its extension headers can. */
  lemma PayloadDecodable(p: Payload)
    ensures Decodable(PayloadCv(p), 0) <==> HeadersReadable(p.headers)
    ensures Decodable(BodyCv(p), 0) <==> HeadersReadable(p.headers)
  {
    hide Build, DistinctKeys, BytesList, HeadersCv, AttachList, HeadersReadable;
    BytesListDecodable(p.refs, 1);
    AttachListDecodable(p.attach, 1);
    HeadersDecodable(p.headers);
    DecodableBuild(PayloadSlots(p), 0);
    DecodableBuild(BodySlots(p), 0);
    assert PayloadSlots(p)[2] == (3, Some(HeadersCv(p.headers))) && BodySlots(p)[1] == (3, Some(HeadersCv(p.headers)));
  }

  /** The payload as received signs the same bytes as the payload as sent. */
  lemma SameBodyBytes(p: Payload)
    ensures Encode(BodyCv(NormalPayload(p))) == Encode(BodyCv(p))
  {
    hide Build, Encode, Normal, BytesList, AttachList;
    EncodeNormal(BodyCv(p));
    NormalBuild(BodySlots(p));
    PayloadSlotsNormal(p);
    NormalBuild(HeadersSlots(p.headers));
    HeadersSlotsNormal(p.headers);
    if p.headers.ext != [] {
      ExtNormal(p.headers.ext);
    } else {
      ExtWritten(p.headers.ext);
    }
    assert NormalSlots(HeadersSlots(p.headers)) == HeadersSlots(NormalHeaders(p.headers));
    assert NormalSlots(BodySlots(p)) == BodySlots(NormalPayload(p));
  }

  /** Decoding what was sealed gives the payload back, or fails, exactly by its headers. */
  lemma SealedPayloadDecodes(p: Payload)
    requires Fits(PayloadCv(p))
    ensures HeadersReadable(p.headers) ==>
      Decode(Encode(PayloadCv(p))).Ok? && PayloadFrom(Decode(Encode(PayloadCv(p))).value) == Ok(NormalPayload(p))
    ensures !HeadersReadable(p.headers) ==> Decode(Encode(PayloadCv(p))).Err?
  {
    hide Encode, Decode, Normal, Decodable, HeadersReadable, PayloadFrom, PayloadCv, Fits;
    PayloadDecodable(p);
    RoundTrip(PayloadCv(p));
    PayloadWritten(p);
  }

  // ---------------------------------------------------------------- build and validate agree

  /** What the recipient makes of a built envelope. */
  ghost predicate Verdict(r: Result<Outcome, MoteError>, ctx: RecipientCtx, recipientIk: Bytes, draft: MoteDraft,
                          p: Payload) {
    if ctx.ourIk != recipientIk then r == Err(NotForUs)
    else if !ctx.senderIsKnown && draft.challenge.None? then r == Ok(Deferred)
    else if !HeadersReadable(draft.headers) then r.Err? && r.error.Cbor?
    else if draft.challenge.Some? && draft.challenge.value.Vouch? && draft.challenge.value.subject != p.from then
      r == Err(VouchSubjectMismatch)
    else r == Ok(Accepted(NormalPayload(p)))
  }

  /** A built envelope passes the header checks of the recipient it is for, and of no other. */
  lemma BuiltHeader(c: Primitives, suite: Suite, eph: nat, recipientIk: Bytes, draft: MoteDraft, ciphertext: Bytes,
                    ctx: RecipientCtx)
    requires Works(c) && MoteSupported(suite)
    ensures ValidateHeader(c, SignedEnvelope(c, suite, eph, KeyTag(recipientIk), draft, ciphertext), ctx)
         == if ctx.ourIk == recipientIk then Ok(()) else Err(NotForUs)
  {
    hide SenderAuthedBytes;
    var id := ContentIdOf(c, ciphertext);
    assert id[1..] == c.hash(ciphertext);
  }

  /** The identity signature made when building verifies over what was received. */
  lemma BuiltSignature(c: Primitives, suite: Suite, sender: nat, to: DeliveryTag, draft: MoteDraft)
    requires Works(c)
    ensures var p := NormalPayload(SignedPayload(c, suite, sender, to, draft));
      c.verify(suite, p.from, PAYLOAD_SIG_DS + c.hash(BoundPreimage(p, draft.kind, draft.ts, Encode(TagCv(to)))), p.sig)
  {
    hide Encode, NormalHeaders, Build;
    SameBodyBytes(SignedPayload(c, suite, sender, to, draft));
  }

  /**
   Build and validate agree, case by case: the recipient's answer to a built envelope is determined by who
   the recipient is, whether the sender is known or brings a challenge, whether the extension headers can be
   read, and whom a vouch names; and the payload accepted is the one sent, up to map order.
   */
  lemma BuildValidateAgree(c: Primitives, suite: Suite, sender: nat, eph: nat, recipientIk: Bytes, sealPub: Bytes,
                           draft: MoteDraft, rnd: nat, ctx: RecipientCtx)
    requires Works(c) && MoteSupported(suite)
    requires Built(c, suite, sender, eph, recipientIk, sealPub, draft, rnd).Ok?
    requires ctx.ourIk == recipientIk ==> sealPub == c.sealPublic(ctx.sealSecret)
    requires Fits(PayloadCv(SignedPayload(c, suite, sender, KeyTag(recipientIk), draft)))
    ensures Verdict(
      Validate(c, Built(c, suite, sender, eph, recipientIk, sealPub, draft, rnd).value, ctx),
      ctx, recipientIk, draft, SignedPayload(c, suite, sender, KeyTag(recipientIk), draft))
  {
    hide Encode, Decode, PayloadCv, PayloadFrom, AadBytes, TagCv, HeadersReadable, NormalHeaders, Fits;
    hide ValidateHeader, BoundPreimage, UnboundPreimage, CheckTiers;
    var to := KeyTag(recipientIk);
    var p := SignedPayload(c, suite, sender, to, draft);
    var env := Built(c, suite, sender, eph, recipientIk, sealPub, draft, rnd).value;
    BuiltHeader(c, suite, eph, recipientIk, draft, env.ciphertext, ctx);
    SealedPayloadDecodes(p);
    BuiltSignature(c, suite, sender, to, draft);
  }

  /** The same over the wire: a built envelope, encoded and decoded again, gets the same verdict. */
  lemma BuildValidateWire(c: Primitives, suite: Suite, sender: nat, eph: nat, recipientIk: Bytes, sealPub: Bytes,
                          draft: MoteDraft, rnd: nat, ctx: RecipientCtx)
    requires Works(c) && MoteSupported(suite)
    requires Built(c, suite, sender, eph, recipientIk, sealPub, draft, rnd).Ok?
    requires ctx.ourIk == recipientIk ==> sealPub == c.sealPublic(ctx.sealSecret)
    requires Fits(PayloadCv(SignedPayload(c, suite, sender, KeyTag(recipientIk), draft)))
    requires Fits(EnvelopeCv(Built(c, suite, sender, eph, recipientIk, sealPub, draft, rnd).value))
    ensures var wire := Encode(EnvelopeCv(Built(c, suite, sender, eph, recipientIk, sealPub, draft, rnd).value));
      && EnvelopeOf(wire).Ok?
      && Verdict(Validate(c, EnvelopeOf(wire).value, ctx), ctx, recipientIk, draft,
                 SignedPayload(c, suite, sender, KeyTag(recipientIk), draft))
  {
    hide Built, Encode, EnvelopeOf, EnvelopeCv, Validate, Verdict, SignedPayload, PayloadCv, Fits;
    BuildValidateAgree(c, suite, sender, eph, recipientIk, sealPub, draft, rnd, ctx);
    var env := Built(c, suite, sender, eph, recipientIk, sealPub, draft, rnd).value;
    EnvelopeIff(Encode(EnvelopeCv(env)), env);
  }

  /**
   A cold envelope without a challenge never reaches `open`: its verdict is the same whatever `open` would
   do, and it is never accepted.
   */
  lemma ColdNeverOpens(c: Primitives, env: Envelope, ctx: RecipientCtx,
                       open: (Bytes, Bytes, Bytes) -> Result<Bytes, MoteError>)
    requires !ctx.senderIsKnown && env.challenge.None?
    ensures Validate(c, env, ctx) == Validate(c.(open := open), env, ctx)
    ensures Validate(c, env, ctx).Ok? ==> Validate(c, env, ctx).value == Deferred
  {
    hide SenderAuthedBytes;
    assert ValidateHeader(c, env, ctx) == ValidateHeader(c.(open := open), env, ctx);
  }

  // ---------------------------------------------------------------- authenticity

  /** Something an identity key signed as a payload: content, kind, time and destination. */
  datatype Signed = Signed(payload: Payload, kind: Kind, ts: U64, to: DeliveryTag)

  function SignedPreimage(e: Signed): Bytes {
    BoundPreimage(e.payload, e.kind, e.ts, Encode(TagCv(e.to)))
  }

  ghost predicate SignedFits(e: Signed) {
    Fits(BodyCv(e.payload)) && TagFits(e.to)
  }

  /**
   Of the signatures there are, any that verifies under this key as a payload signature was made for an entry of
   the log.
   */
  ghost predicate SignedOnly(c: Primitives, suite: Suite, pk: Bytes, known: set<Bytes>, log: set<Signed>) {
    forall msg, sig :: sig in known && c.verify(suite, pk, PAYLOAD_SIG_DS + msg, sig) ==>
      exists e :: e in log && msg == c.hash(SignedPreimage(e))
  }

  /** The hash does not collide between this preimage and those of the log. */
  ghost predicate NoCollision(c: Primitives, log: set<Signed>, here: Signed) {
    forall e | e in log && c.hash(SignedPreimage(e)) == c.hash(SignedPreimage(here)) ::
      SignedPreimage(e) == SignedPreimage(here)
  }

  /**
   What is accepted was signed, in this very context: an accepted envelope carries the content, kind, time
   and destination of something the sender's identity key signed, so a re-emitted ciphertext under an
   altered kind, time or destination is never accepted.  `known` holds the signatures that exist, `log` what
   the key signed.
   */
  lemma AcceptedWasSigned(c: Primitives, env: Envelope, ctx: RecipientCtx, p: Payload, known: set<Bytes>,
                          log: set<Signed>)
    requires Validate(c, env, ctx) == Ok(Accepted(p))
    requires p.sig in known && SignedOnly(c, env.suite, p.from, known, log)
    requires SignedFits(Signed(p, env.kind, env.ts, env.to)) && forall e | e in log :: SignedFits(e)
    requires NoCollision(c, log, Signed(p, env.kind, env.ts, env.to))
    ensures exists e :: e in log && SameContent(e.payload, p) && e.kind == env.kind && e.ts == env.ts && e.to == env.to
  {
    hide Encode, Decode, PayloadFrom, BoundPreimage, AadBytes, ValidateHeader, SameContent, Fits, BodyCv, TagCv;
    var here := Signed(p, env.kind, env.ts, env.to);
    assert ValidatePayload(c, env, p) == Ok(Accepted(p));
    assert c.verify(env.suite, p.from, PAYLOAD_SIG_DS + c.hash(SignedPreimage(here)), p.sig);
    var e :| e in log && c.hash(SignedPreimage(here)) == c.hash(SignedPreimage(e));
    BoundInjective(e.payload, e.kind, e.ts, e.to, p, env.kind, env.ts, env.to);
  }

  /** A signature is for one message only. */
  ghost predicate Binds(c: Primitives, suite: Suite, pk: Bytes, sig: Bytes) {
    forall m, n :: c.verify(suite, pk, m, sig) && c.verify(suite, pk, n, sig) ==> m == n
  }

  /**
   Honest senders meet the assumptions: with working cryptography, a signature that binds its message and
   the log of what was built, nothing else is signed, and the received payload has the preimage of the sent one.
   */
  lemma BuiltIsCovered(c: Primitives, suite: Suite, sender: nat, to: DeliveryTag, draft: MoteDraft)
    requires Works(c)
    requires var p := SignedPayload(c, suite, sender, to, draft); Binds(c, suite, p.from, p.sig)
    ensures var p := SignedPayload(c, suite, sender, to, draft);
      var log := {Signed(p, draft.kind, draft.ts, to)};
      && SignedOnly(c, suite, p.from, {p.sig}, log)
      && NoCollision(c, log, Signed(NormalPayload(p), draft.kind, draft.ts, to))
  {
    hide Encode, NormalHeaders, Build;
    var p := SignedPayload(c, suite, sender, to, draft);
    var e := Signed(p, draft.kind, draft.ts, to);
    SameBodyBytes(p);
    assert BoundPreimage(p.(sig := []), draft.kind, draft.ts, Encode(TagCv(to))) == SignedPreimage(e);
    assert c.verify(suite, p.from, PAYLOAD_SIG_DS + c.hash(SignedPreimage(e)), p.sig);
    forall msg | c.verify(suite, p.from, PAYLOAD_SIG_DS + msg, p.sig)
      ensures msg == c.hash(SignedPreimage(e))
    {
      SplitAt(PAYLOAD_SIG_DS, PAYLOAD_SIG_DS, msg, c.hash(SignedPreimage(e)));
    }
  }

  // ---------------------------------------------------------------- the assumptions can be met together

  /** Stand-ins that work: a constant hash, a signature that is its message, and no sealing. */
  function PlainPrimitives(): Primitives {
    Primitives(
      (x: Bytes) => seq(32, _ => 0),
      (s: Suite, k: nat) => [SuiteByte(s)],
      (s: Suite, k: nat, m: Bytes) => m,
      (s: Suite, pk: Bytes, m: Bytes, sig: Bytes) => sig == m,
      (sk: Bytes) => sk,
      (pk: Bytes, aad: Bytes, pt: Bytes, r: nat) => Ok(pt),
      (sk: Bytes, aad: Bytes, ct: Bytes) => Ok(ct))
  }

  lemma PlainWorks()
    ensures Works(PlainPrimitives())
  {
  }

  /** A draft with nothing but a kind. */
  const PLAIN_DRAFT: MoteDraft := MoteDraft(
    Mail, 0, Headers(None, None, None, [], [], None), [], [], [], None, None, None, None)

  lemma PlainHeadersFit()
    ensures Fits(HeadersCv(PLAIN_DRAFT.headers))
  {
    hide Build;
    FitsBuild(HeadersSlots(PLAIN_DRAFT.headers));
  }

  lemma PlainPayloadFits(p: Payload)
    requires p.headers == PLAIN_DRAFT.headers && p.body == [] && p.refs == [] && p.attach == [] && p.expires == None
    requires |p.from| <= U64_MAX && |p.sig| <= U64_MAX
    ensures Fits(PayloadCv(p)) && Fits(BodyCv(p)) && NormalPayload(p) == p
  {
    hide Build, HeadersCv, OrderFrom;
    PlainHeadersFit();
    FitsBuild(PayloadSlots(p));
    FitsBuild(BodySlots(p));
    ExtWritten([]);
  }

  /**
   The assumptions of `AcceptedWasSigned` hold together, with working cryptography and an envelope that the
   sender's own key made and the recipient accepts.
   */
  lemma AssumptionsAreMet()
    returns (c: Primitives, env: Envelope, ctx: RecipientCtx, p: Payload, known: set<Bytes>, log: set<Signed>)
    ensures Works(c) && p.from == c.public(env.suite, 0)
    ensures Validate(c, env, ctx) == Ok(Accepted(p))
    ensures p.sig in known && SignedOnly(c, env.suite, p.from, known, log)
    ensures SignedFits(Signed(p, env.kind, env.ts, env.to)) && forall e | e in log :: SignedFits(e)
    ensures NoCollision(c, log, Signed(p, env.kind, env.ts, env.to))
  {
    hide Encode, Decode, PayloadCv, PayloadFrom, BodyCv, AadBytes, BoundPreimage, Validate, Works, NormalPayload;
    hide Fits, SignedOnly, NoCollision;
    c, ctx := PlainPrimitives(), RecipientCtx([], [], true);
    PlainWorks();
    var to := KeyTag([]);
    p := SignedPayload(c, Classical, 0, to, PLAIN_DRAFT);
    env := Built(c, Classical, 0, 0, [], [], PLAIN_DRAFT, 0).value;
    PlainPayloadFits(p);
    PlainTagFits();
    BuildValidateAgree(c, Classical, 0, 0, [], [], PLAIN_DRAFT, 0, ctx);
    BuiltIsCovered(c, Classical, 0, to, PLAIN_DRAFT);
    known, log := {p.sig}, {Signed(p, PLAIN_DRAFT.kind, PLAIN_DRAFT.ts, to)};
  }

  lemma PlainTagFits()
    ensures TagFits(KeyTag([]))
  {
    hide Build;
    FitsBuild(TagSlots(KeyTag([])));
  }
}
