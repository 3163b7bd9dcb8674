/** What the verdicts of the pipeline mean: field by field, for every envelope, built or not. */
module MoteMeaning {
  import opened Prelude
  import opened CborBytes
  import opened CborValue
  import opened CborParse
  import opened CborPrefix
  import opened MoteTypes
  import opened MoteCodec
  import opened MotePreimage
  import opened MotePipeline

  // ---------------------------------------------------------------- the header

  /** The address of the ciphertext, written out. */
  ghost predicate Addressed(c: Primitives, env: Envelope) {
    |env.id| == 33 && env.id == [0x1E] + c.hash(env.ciphertext)
  }

  /** The ephemeral key signed id, destination, time, kind and challenge. */
  ghost predicate EphemeralSigned(c: Primitives, env: Envelope) {
    && env.senderSig.Some? && env.senderEph.Some?
    && c.verify(env.suite, env.senderEph.value,
                ENVELOPE_SENDER_DS + SenderAuthedBytes(env.id, env.to, env.ts, env.kind, env.challenge),
                env.senderSig.value)
  }

  /** Everything that is checked before decryption. */
  ghost predicate HeaderStands(c: Primitives, env: Envelope, ctx: RecipientCtx) {
    && env.v == 0 && (env.suite.Classical? || env.suite.PqHybrid?)
    && Addressed(c, env) && EphemeralSigned(c, env) && env.to == KeyTag(ctx.ourIk)
  }

  lemma AddressedIff(c: Primitives, env: Envelope)
    ensures ContentIdVerify(c, env.id, env.ciphertext) <==> Addressed(c, env)
  {
    if |env.id| == 33 && env.id[0] == 0x1E {
      assert env.id == [0x1E] + env.id[1..];
    }
  }

  /** The header checks, in order, each with the error it gives. */
  lemma HeaderVerdict(c: Primitives, env: Envelope, ctx: RecipientCtx)
    ensures ValidateHeader(c, env, ctx) ==
      if env.v != 0 then Err(UnknownVersion(env.v))
      else if !env.suite.Classical? && !env.suite.PqHybrid? then Err(UnsupportedSuite(SuiteByte(env.suite)))
      else if !Addressed(c, env) then Err(BadContentAddress)
      else if env.senderSig.None? then Err(BadSignature)
      else if env.senderEph.None? then Err(MissingSenderKey)
      else if !EphemeralSigned(c, env) then Err(BadSignature)
      else if env.to != KeyTag(ctx.ourIk) then Err(NotForUs)
      else Ok(())
  {
    hide SenderAuthedBytes, ContentIdVerify, Addressed;
    AddressedIff(c, env);
  }

  // ---------------------------------------------------------------- the payload

  /** The ciphertext opens, under the received context, to this payload. */
  ghost predicate Opens(c: Primitives, env: Envelope, ctx: RecipientCtx, p: Payload) {
    var aad := AadBytes(env.suite, env.kind, env.ts, Encode(TagCv(env.to)));
    var pt := c.open(ctx.sealSecret, aad, env.ciphertext);
    pt.Ok? && Decode(pt.value).Ok? && PayloadFrom(Decode(pt.value).value) == Ok(p)
  }

  /** The identity key signed the payload together with this kind, time and destination. */
  ghost predicate SignedHere(c: Primitives, env: Envelope, p: Payload) {
    c.verify(env.suite, p.from,
             PAYLOAD_SIG_DS + c.hash(BoundPreimage(p, env.kind, env.ts, Encode(TagCv(env.to)))), p.sig)
  }

  /** The identity key signed the payload on its own. */
  ghost predicate SignedBare(c: Primitives, env: Envelope, p: Payload) {
    c.verify(env.suite, p.from, PAYLOAD_SIG_DS + c.hash(Encode(BodyCv(p))), p.sig)
  }

  /** A vouch, if there is one, names the sender. */
  predicate VouchFits(env: Envelope, p: Payload) {
    env.challenge.Some? && env.challenge.value.Vouch? ==> env.challenge.value.subject == p.from
  }

  predicate Cold(env: Envelope, ctx: RecipientCtx) {
    !ctx.senderIsKnown && env.challenge.None?
  }

  /** `Deferred` is answered exactly to a cold envelope with a standing header, and no other answer comes before. */
  lemma DeferredIff(c: Primitives, env: Envelope, ctx: RecipientCtx)
    ensures Validate(c, env, ctx) == Ok(Deferred) <==> HeaderStands(c, env, ctx) && Cold(env, ctx)
    ensures Validate(c, env, ctx).Ok? ==> HeaderStands(c, env, ctx)
    ensures ValidateHeader(c, env, ctx).Err? ==> Validate(c, env, ctx) == Err(ValidateHeader(c, env, ctx).error)
  {
    hide SenderAuthedBytes, ValidateHeader, Addressed, Decode, PayloadFrom, AadBytes, BoundPreimage;
    HeaderVerdict(c, env, ctx);
  }

  /** `Accepted` is answered exactly to an envelope that stands, opens, and is signed in its own context. */
  lemma AcceptedIff(c: Primitives, env: Envelope, ctx: RecipientCtx, p: Payload)
    ensures Validate(c, env, ctx) == Ok(Accepted(p)) <==>
            && HeaderStands(c, env, ctx) && !Cold(env, ctx)
            && Opens(c, env, ctx, p) && SignedHere(c, env, p) && VouchFits(env, p)
  {
    hide SenderAuthedBytes, ValidateHeader, Addressed, Decode, PayloadFrom, AadBytes, BoundPreimage;
    hide Encode;
    HeaderVerdict(c, env, ctx);
  }

  /** What is answered once the payload is open. */
  lemma OpenedVerdict(c: Primitives, env: Envelope, ctx: RecipientCtx, p: Payload)
    requires HeaderStands(c, env, ctx) && !Cold(env, ctx) && Opens(c, env, ctx, p)
    ensures Validate(c, env, ctx) ==
      if SignedHere(c, env, p) then (if VouchFits(env, p) then Ok(Accepted(p)) else Err(VouchSubjectMismatch))
      else if SignedBare(c, env, p) then Err(EnvelopeContextMismatch)
      else Err(BadSignature)
  {
    hide SenderAuthedBytes, ValidateHeader, Addressed, Decode, PayloadFrom, AadBytes, BoundPreimage;
    hide Encode;
    HeaderVerdict(c, env, ctx);
  }

  /** What is answered when opening or decoding fails. */
  lemma UnopenedVerdict(c: Primitives, env: Envelope, ctx: RecipientCtx)
    requires HeaderStands(c, env, ctx) && !Cold(env, ctx)
    ensures var aad := AadBytes(env.suite, env.kind, env.ts, Encode(TagCv(env.to)));
      var pt := c.open(ctx.sealSecret, aad, env.ciphertext);
      && (pt.Err? ==> Validate(c, env, ctx) == Err(pt.error))
      && (pt.Ok? && Decode(pt.value).Err? ==> Validate(c, env, ctx) == Err(Cbor(Decode(pt.value).error)))
      && (pt.Ok? && Decode(pt.value).Ok? && PayloadFrom(Decode(pt.value).value).Err? ==>
          Validate(c, env, ctx) == Err(Cbor(PayloadFrom(Decode(pt.value).value).error)))
  {
    hide SenderAuthedBytes, ValidateHeader, Addressed, Decode, PayloadFrom, AadBytes, BoundPreimage;
    hide Encode;
    HeaderVerdict(c, env, ctx);
  }

  // ---------------------------------------------------------------- the ephemeral signature

  /** Something an ephemeral key signed as a header. */
  datatype Sent = Sent(id: Bytes, to: DeliveryTag, ts: U64, kind: Kind, challenge: Option<ChallengeResponse>)

  function SentBytes(e: Sent): Bytes {
    SenderAuthedBytes(e.id, e.to, e.ts, e.kind, e.challenge)
  }

  ghost predicate SentFits(e: Sent) {
    |e.id| == 33 && TagFits(e.to) && ChallengeFits(e.challenge)
  }

  /** Of the signatures there are, any that verifies under this key as a sender signature is for an entry of the log. */
  ghost predicate SentOnly(c: Primitives, suite: Suite, pk: Bytes, known: set<Bytes>, log: set<Sent>) {
    forall msg, sig :: sig in known && c.verify(suite, pk, ENVELOPE_SENDER_DS + msg, sig) ==>
      exists e :: e in log && msg == SentBytes(e)
  }

  function HeaderOf(env: Envelope): Sent {
    Sent(env.id, env.to, env.ts, env.kind, env.challenge)
  }

  /**
   The header was signed as a whole: id, destination, time, kind and challenge of any accepted or deferred
   envelope are those of one thing that the ephemeral key signed.
   */
  lemma HeaderWasSigned(c: Primitives, env: Envelope, ctx: RecipientCtx, known: set<Bytes>, log: set<Sent>)
    requires Validate(c, env, ctx).Ok?
    requires env.senderSig.Some? && env.senderEph.Some? && env.senderSig.value in known
    requires SentOnly(c, env.suite, env.senderEph.value, known, log)
    requires TagFits(env.to) && ChallengeFits(env.challenge) && forall e | e in log :: SentFits(e)
    ensures HeaderOf(env) in log
  {
    hide SenderAuthedBytes, Validate, TagFits, ChallengeFits;
    DeferredIff(c, env, ctx);
    var e :| e in log && SentBytes(HeaderOf(env)) == SentBytes(e);
    assert SentBytes(e) == SenderAuthedBytes(e.id, e.to, e.ts, e.kind, e.challenge);
    assert SentBytes(HeaderOf(env)) == SenderAuthedBytes(env.id, env.to, env.ts, env.kind, env.challenge);
    SenderAuthedInjective(e.id, e.to, e.ts, e.kind, e.challenge, env.id, env.to, env.ts, env.kind, env.challenge);
  }

  /** Honest senders meet that assumption, with the log of the one header that was built. */
  lemma BuiltIsSent(c: Primitives, suite: Suite, eph: nat, to: DeliveryTag, draft: MoteDraft, ciphertext: Bytes)
    requires Works(c)
    requires var env := SignedEnvelope(c, suite, eph, to, draft, ciphertext);
      Binds(c, suite, c.public(suite, eph), env.senderSig.value)
    ensures var env := SignedEnvelope(c, suite, eph, to, draft, ciphertext);
      env.senderEph == Some(c.public(suite, eph)) &&
      SentOnly(c, suite, c.public(suite, eph), {env.senderSig.value}, {HeaderOf(env)})
  {
    hide SenderAuthedBytes;
    var env := SignedEnvelope(c, suite, eph, to, draft, ciphertext);
    var pk, sig, authed := c.public(suite, eph), env.senderSig.value, SentBytes(HeaderOf(env));
    assert c.verify(suite, pk, ENVELOPE_SENDER_DS + authed, sig);
    forall msg | c.verify(suite, pk, ENVELOPE_SENDER_DS + msg, sig)
      ensures msg == authed
    {
      SplitAt(ENVELOPE_SENDER_DS, ENVELOPE_SENDER_DS, msg, authed);
    }
  }

  // ---------------------------------------------------------------- what a built envelope carries

  /** The envelope carries the draft's fields, its own address, and the sealed payload with the draft's content. */
  lemma BuiltCarries(c: Primitives, suite: Suite, sender: nat, eph: nat, recipientIk: Bytes, sealPub: Bytes,
                     draft: MoteDraft, rnd: nat) returns (p: Payload)
    requires Built(c, suite, sender, eph, recipientIk, sealPub, draft, rnd).Ok?
    ensures var env := Built(c, suite, sender, eph, recipientIk, sealPub, draft, rnd).value;
      && env.v == 0 && env.suite == suite && env.to == KeyTag(recipientIk) && env.id == [0x1E] + c.hash(env.ciphertext)
      && env.epoch == draft.epoch && env.ts == draft.ts && env.kind == draft.kind
      && env.keypkg == draft.keypkg && env.challenge == draft.challenge
      && env.senderEph == Some(c.public(suite, eph))
      && env.senderSig == Some(c.sign(suite, eph, ENVELOPE_SENDER_DS + SentBytes(HeaderOf(env))))
      && c.seal(sealPub, AadBytes(suite, env.kind, env.ts, Encode(TagCv(env.to))), Encode(PayloadCv(p)), rnd)
         == Ok(env.ciphertext)
    ensures p == SignedPayload(c, suite, sender, KeyTag(recipientIk), draft)
    ensures p.from == c.public(suite, sender) && p.headers == draft.headers && p.body == draft.body
    ensures p.refs == draft.refs && p.attach == draft.attach && p.expires == draft.expires
  {
    hide SenderAuthedBytes, AadBytes, Encode, BoundPreimage, CheckTiers;
    p := SignedPayload(c, suite, sender, KeyTag(recipientIk), draft);
  }

  /** Building fails exactly if an attachment is outside its tier or sealing fails. */
  lemma BuiltFails(c: Primitives, suite: Suite, sender: nat, eph: nat, recipientIk: Bytes, sealPub: Bytes,
                   draft: MoteDraft, rnd: nat)
    ensures var to := KeyTag(recipientIk);
      var pt := Encode(PayloadCv(SignedPayload(c, suite, sender, to, draft)));
      var aad := AadBytes(suite, draft.kind, draft.ts, Encode(TagCv(to)));
      Built(c, suite, sender, eph, recipientIk, sealPub, draft, rnd).Err? <==>
      (exists i :: 0 <= i < |draft.attach| && !WithinTier(draft.attach[i])) || c.seal(sealPub, aad, pt, rnd).Err?
  {
    hide SenderAuthedBytes, AadBytes, Encode, BoundPreimage, CheckTiers, WithinTier;
    TiersEnforced(draft.attach);
  }

  /** A tag for payloads is never one for headers. */
  lemma DomainsDiffer(x: Bytes, y: Bytes)
    ensures PAYLOAD_SIG_DS + x != ENVELOPE_SENDER_DS + y
  {
    assert (PAYLOAD_SIG_DS + x)[9] == PAYLOAD_SIG_DS[9];
    assert (ENVELOPE_SENDER_DS + y)[9] == ENVELOPE_SENDER_DS[9];
  }
}
