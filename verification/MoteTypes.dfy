/** The wire objects of a MOTE and their integer-keyed canonical maps. */
module MoteTypes {
  import opened Prelude
  import opened CborValue
  import opened CborParse
  import opened CborCanon
  import opened CborFields

  predicate MoteSupported(s: Suite) {
    s.Classical? || s.PqHybrid?
  }

  datatype Kind =
    | Mail | Chat | Reaction | Edit | Redact | FileOffer | GroupEvent | Receipt | Presence | Identity
    | System | Deniable | PubAnnounce | FeedHint | FeedSubscribe | FeedUnsubscribe | RtcSignal

  function KindByte(k: Kind): Byte {
    match k
    case Mail => 0x00
    case Chat => 0x01
    case Reaction => 0x02
    case Edit => 0x03
    case Redact => 0x04
    case FileOffer => 0x05
    case GroupEvent => 0x06
    case Receipt => 0x07
    case Presence => 0x08
    case Identity => 0x09
    case System => 0x0A
    case Deniable => 0x0B
    case PubAnnounce => 0x40
    case FeedHint => 0x41
    case FeedSubscribe => 0x42
    case FeedUnsubscribe => 0x43
    case RtcSignal => 0x44
  }

  /** `Kind::from_u8`: reserved and unassigned bytes name no kind. */
  function KindFromByte(b: Byte): (k: Option<Kind>)
    ensures forall x :: k == Some(x) <==> b == KindByte(x)
  {
    if b == 0x00 then Some(Mail)
    else if b == 0x01 then Some(Chat)
    else if b == 0x02 then Some(Reaction)
    else if b == 0x03 then Some(Edit)
    else if b == 0x04 then Some(Redact)
    else if b == 0x05 then Some(FileOffer)
    else if b == 0x06 then Some(GroupEvent)
    else if b == 0x07 then Some(Receipt)
    else if b == 0x08 then Some(Presence)
    else if b == 0x09 then Some(Identity)
    else if b == 0x0A then Some(System)
    else if b == 0x0B then Some(Deniable)
    else if b == 0x40 then Some(PubAnnounce)
    else if b == 0x41 then Some(FeedHint)
    else if b == 0x42 then Some(FeedSubscribe)
    else if b == 0x43 then Some(FeedUnsubscribe)
    else if b == 0x44 then Some(RtcSignal)
    else None
  }

  /** Writes an optional field. */
  function Opt<T>(x: Option<T>, f: T -> Cv): Option<Cv> {
    if x.None? then None else Some(f(x.value))
  }

  function UintCv(n: U64): Cv { Uint(n) }
  function BstrCv(b: Bytes): Cv { Bstr(b) }
  function TextCv(s: Str): Cv { Text(s) }
  function BoolCv(f: bool): Cv { Bool(f) }

  /** Writes a list of byte strings. */
  function BytesList(bs: seq<Bytes>): Cv {
    Array(seq(|bs|, i requires 0 <= i < |bs| => Bstr(bs[i])))
  }

  // ---------------------------------------------------------------- routing and challenge

  datatype DeliveryTag = KeyTag(k: Bytes) | GroupTag(g: Bytes) | BlindedTag(t: Bytes)

  function TagSlots(t: DeliveryTag): seq<Slot> {
    match t
    case KeyTag(b) => [(0, Some(Uint(1))), (1, Some(Bstr(b)))]
    case GroupTag(b) => [(0, Some(Uint(2))), (1, Some(Bstr(b)))]
    case BlindedTag(b) => [(0, Some(Uint(3))), (1, Some(Bstr(b)))]
  }

  function TagCv(t: DeliveryTag): Cv {
    Map(Build(TagSlots(t)))
  }

  function TagFrom(v: Cv): Result<DeliveryTag, CborError> {
    var f :- FieldsOf(v);
    var (x, f) :- Req(f, 0);
    var disc :- AsU64(x);
    var (x, f) :- Req(f, 1);
    var val :- AsBytes(x);
    var _ :- DenyUnknown(f);
    if disc == 1 then Ok(KeyTag(val))
    else if disc == 2 then Ok(GroupTag(val))
    else if disc == 3 then Ok(BlindedTag(val))
    else Err(UnknownDiscriminant(disc))
  }

  type U32 = x: nat | x <= 0xFFFF_FFFF

  function U32Cv(n: U32): Cv { Uint(n) }

  function AsU32Field(v: Cv): Result<U32, CborError> {
    AsUint32(v)
  }

  datatype ChallengeResponse =
    | Arc(issuer: Bytes, token: Bytes, origin: Bytes, nonce: Option<Bytes>)
    | Pow(algo: Str, m: U32, iters: U32, lanes: U32, epochNonce: Bytes, solution: Bytes, difficulty: Byte)
    | Postage(
        issuer: Bytes, serial: Bytes, amount: U64, currency: Str, expiry: U64, audience: Option<Bytes>, sig: Bytes)
    | Vouch(voucher: Bytes, subject: Bytes, recipient: Bytes, exp: U64, sig: Bytes)

  function ChallengeSlots(c: ChallengeResponse): seq<Slot> {
    match c
    case Arc(issuer, token, origin, nonce) =>
      [(0, Some(Uint(1))), (1, Some(Bstr(issuer))), (2, Some(Bstr(token))), (3, Some(Bstr(origin))),
       (4, Opt(nonce, BstrCv))]
    case Pow(algo, m, iters, lanes, epochNonce, solution, difficulty) =>
      [(0, Some(Uint(2))), (1, Some(Text(algo))), (2, Some(Array([Uint(m), Uint(iters), Uint(lanes)]))),
       (3, Some(Bstr(epochNonce))), (4, Some(Bstr(solution))), (5, Some(Uint(difficulty)))]
    case Postage(issuer, serial, amount, currency, expiry, audience, sig) =>
      [(0, Some(Uint(3))), (1, Some(Bstr(issuer))), (2, Some(Bstr(serial))), (3, Some(Uint(amount))),
       (4, Some(Text(currency))), (5, Some(Uint(expiry))), (6, Opt(audience, BstrCv)), (7, Some(Bstr(sig)))]
    case Vouch(voucher, subject, recipient, exp, sig) =>
      [(0, Some(Uint(4))), (1, Some(Bstr(voucher))), (2, Some(Bstr(subject))), (3, Some(Bstr(recipient))),
       (4, Some(Uint(exp))), (5, Some(Bstr(sig)))]
  }

  function ChallengeCv(c: ChallengeResponse): Cv {
    Map(Build(ChallengeSlots(c)))
  }

  function ChallengeFrom(v: Cv): Result<ChallengeResponse, CborError> {
    var f :- FieldsOf(v);
    var (x, f) :- Req(f, 0);
    var disc :- AsU64(x);
    if disc == 1 then ArcFrom(f)
    else if disc == 2 then PowFrom(f)
    else if disc == 3 then PostageFrom(f)
    else if disc == 4 then VouchFrom(f)
    else Err(UnknownDiscriminant(disc))
  }

  function ArcFrom(f: FieldMap): Result<ChallengeResponse, CborError> {
    var (x, f) :- Req(f, 1);
    var issuer :- AsBytes(x);
    var (x, f) :- Req(f, 2);
    var token :- AsBytes(x);
    var (x, f) :- Req(f, 3);
    var origin :- AsBytes(x);
    var (x, f) := Take(f, 4);
    var nonce :- Optional(x, AsBytes);
    var _ :- DenyUnknown(f);
    Ok(Arc(issuer, token, origin, nonce))
  }

  function PowFrom(f: FieldMap): Result<ChallengeResponse, CborError> {
    var (x, f) :- Req(f, 1);
    var algo :- AsText(x);
    var (x, f) :- Req(f, 2);
    var params :- AsArray(x);
    if |params| != 3 then Err(TypeMismatch)
    else
      var m :- AsU32Field(params[0]);
      var iters :- AsU32Field(params[1]);
      var lanes :- AsU32Field(params[2]);
      var (x, f) :- Req(f, 3);
      var epochNonce :- AsBytes(x);
      var (x, f) :- Req(f, 4);
      var solution :- AsBytes(x);
      var (x, f) :- Req(f, 5);
      var difficulty :- AsU8(x);
      var _ :- DenyUnknown(f);
      Ok(Pow(algo, m, iters, lanes, epochNonce, solution, difficulty))
  }

  function PostageFrom(f: FieldMap): Result<ChallengeResponse, CborError> {
    var (x, f) :- Req(f, 1);
    var issuer :- AsBytes(x);
    var (x, f) :- Req(f, 2);
    var serial :- AsBytes(x);
    var (x, f) :- Req(f, 3);
    var amount :- AsU64(x);
    var (x, f) :- Req(f, 4);
    var currency :- AsText(x);
    var (x, f) :- Req(f, 5);
    var expiry :- AsU64(x);
    var (x, f) := Take(f, 6);
    var audience :- Optional(x, AsBytes);
    var (x, f) :- Req(f, 7);
    var sig :- AsBytes(x);
    var _ :- DenyUnknown(f);
    Ok(Postage(issuer, serial, amount, currency, expiry, audience, sig))
  }

  function VouchFrom(f: FieldMap): Result<ChallengeResponse, CborError> {
    var (x, f) :- Req(f, 1);
    var voucher :- AsBytes(x);
    var (x, f) :- Req(f, 2);
    var subject :- AsBytes(x);
    var (x, f) :- Req(f, 3);
    var recipient :- AsBytes(x);
    var (x, f) :- Req(f, 4);
    var exp :- AsU64(x);
    var (x, f) :- Req(f, 5);
    var sig :- AsBytes(x);
    var _ :- DenyUnknown(f);
    Ok(Vouch(voucher, subject, recipient, exp, sig))
  }

  // ---------------------------------------------------------------- the envelope

  function SuiteCv(s: Suite): Cv { Uint(SuiteByte(s)) }

  function SuiteFrom(v: Cv): Result<Suite, CborError> {
    var b :- AsU8(v);
    var s := SuiteFromByte(b);
    if s.None? then Err(UnknownSuite(b)) else Ok(s.value)
  }

  function KindFrom(v: Cv): Result<Kind, CborError> {
    var b :- AsU8(v);
    var k := KindFromByte(b);
    if k.None? then Err(UnknownDiscriminant(0)) else Ok(k.value)
  }

  datatype KeyPackageRef = KeyPackageRef(reference: Bytes, suite: Suite, loc: Option<Str>)

  function KeyPackageSlots(k: KeyPackageRef): seq<Slot> {
    [(1, Some(Bstr(k.reference))), (2, Some(SuiteCv(k.suite))), (3, Opt(k.loc, TextCv))]
  }

  function KeyPackageCv(k: KeyPackageRef): Cv {
    Map(Build(KeyPackageSlots(k)))
  }

  function KeyPackageFrom(v: Cv): Result<KeyPackageRef, CborError> {
    var f :- FieldsOf(v);
    var (x, f) :- Req(f, 1);
    var reference :- AsBytes(x);
    var (x, f) :- Req(f, 2);
    var suite :- SuiteFrom(x);
    var (x, f) := Take(f, 3);
    var loc :- Optional(x, AsText);
    var _ :- DenyUnknown(f);
    Ok(KeyPackageRef(reference, suite, loc))
  }

  datatype Envelope = Envelope(
    v: Byte, suite: Suite, id: Bytes, to: DeliveryTag, epoch: Option<Bytes>, ts: U64, kind: Kind,
    keypkg: Option<KeyPackageRef>, challenge: Option<ChallengeResponse>, ciphertext: Bytes,
    senderSig: Option<Bytes>, senderEph: Option<Bytes>)

  function EnvelopeSlots(e: Envelope): seq<Slot> {
    [(1, Some(Uint(e.v))), (2, Some(SuiteCv(e.suite))), (3, Some(Bstr(e.id))), (4, Some(TagCv(e.to))),
     (5, Opt(e.epoch, BstrCv)), (6, Some(Uint(e.ts))), (7, Some(Uint(KindByte(e.kind)))),
     (8, Opt(e.keypkg, KeyPackageCv)), (9, Opt(e.challenge, ChallengeCv)), (10, Some(Bstr(e.ciphertext))),
     (11, Opt(e.senderSig, BstrCv)), (12, Opt(e.senderEph, BstrCv))]
  }

  function EnvelopeCv(e: Envelope): Cv {
    Map(Build(EnvelopeSlots(e)))
  }

  /** Keys 1 to 6 of an envelope. */
  datatype EnvelopeHead = EnvelopeHead(v: Byte, suite: Suite, id: Bytes, to: DeliveryTag, epoch: Option<Bytes>, ts: U64)

  /** `Envelope::from_det_cbor` after decoding: keys 1 to 6, then the rest. */
  function EnvelopeFrom(v: Cv): Result<Envelope, CborError> {
    var f :- FieldsOf(v);
    var (x, f) :- Req(f, 1);
    var version :- AsU8(x);
    var (x, f) :- Req(f, 2);
    var suite :- SuiteFrom(x);
    var (x, f) :- Req(f, 3);
    var id :- AsBytes(x);
    var (x, f) :- Req(f, 4);
    var to :- TagFrom(x);
    var (x, f) := Take(f, 5);
    var epoch :- Optional(x, AsBytes);
    var (x, f) :- Req(f, 6);
    var ts :- AsU64(x);
    EnvelopeRest(f, EnvelopeHead(version, suite, id, to, epoch, ts))
  }

  /** Keys 7 to 12, and nothing else. */
  function EnvelopeRest(f: FieldMap, h: EnvelopeHead): Result<Envelope, CborError> {
    var (x, f) :- Req(f, 7);
    var kind :- KindFrom(x);
    var (x, f) := Take(f, 8);
    var keypkg :- Optional(x, KeyPackageFrom);
    var (x, f) := Take(f, 9);
    var challenge :- Optional(x, ChallengeFrom);
    var (x, f) :- Req(f, 10);
    var ciphertext :- AsBytes(x);
    var (x, f) := Take(f, 11);
    var senderSig :- Optional(x, AsBytes);
    var (x, f) := Take(f, 12);
    var senderEph :- Optional(x, AsBytes);
    var _ :- DenyUnknown(f);
    Ok(Envelope(h.v, h.suite, h.id, h.to, h.epoch, h.ts, kind, keypkg, challenge, ciphertext, senderSig, senderEph))
  }

  // ---------------------------------------------------------------- attachments

  const INLINE_TIER_MAX: nat := 64 * 1024
  const ATTACHED_TIER_MAX: nat := 25 * 1024 * 1024

  /** A durability class byte that names no known class. */
  type UnknownClass = b: Byte | b > 3 witness 4

  datatype DurabilityClass = OriginHold | RecipientPinned | ClusterReplicated | Pinned | Unknown(b: UnknownClass)

  function ClassByte(c: DurabilityClass): Byte {
    match c
    case OriginHold => 0
    case RecipientPinned => 1
    case ClusterReplicated => 2
    case Pinned => 3
    case Unknown(b) => b
  }

  function ClassFromByte(b: Byte): DurabilityClass {
    if b == 0 then OriginHold
    else if b == 1 then RecipientPinned
    else if b == 2 then ClusterReplicated
    else if b == 3 then Pinned
    else Unknown(b)
  }

  datatype Durability = Durability(
    cls: DurabilityClass, retention: Option<U64>, replicas: Option<U32>, holderHint: Option<Str>)

  function DurabilitySlots(d: Durability): seq<Slot> {
    [(1, Some(Uint(ClassByte(d.cls)))), (2, Opt(d.retention, UintCv)), (3, Opt(d.replicas, U32Cv)),
     (4, Opt(d.holderHint, TextCv))]
  }

  function DurabilityCv(d: Durability): Cv {
    Map(Build(DurabilitySlots(d)))
  }

  function DurabilityFrom(v: Cv): Result<Durability, CborError> {
    var f :- FieldsOf(v);
    var (x, f) :- Req(f, 1);
    var cls :- AsU8(x);
    var (x, f) := Take(f, 2);
    var retention :- Optional(x, AsU64);
    var (x, f) := Take(f, 3);
    var replicas :- Optional(x, AsU32Field);
    var (x, f) := Take(f, 4);
    var hint :- Optional(x, AsText);
    var _ :- DenyUnknown(f);
    Ok(Durability(ClassFromByte(cls), retention, replicas, hint))
  }

  datatype ManifestRef = ManifestRef(id: Bytes, size: U64, chunks: U32, durability: Option<Durability>)

  function ManifestSlots(m: ManifestRef): seq<Slot> {
    [(1, Some(Bstr(m.id))), (2, Some(Uint(m.size))), (3, Some(Uint(m.chunks))), (4, Opt(m.durability, DurabilityCv))]
  }

  function ManifestCv(m: ManifestRef): Cv {
    Map(Build(ManifestSlots(m)))
  }

  function ManifestFrom(v: Cv): Result<ManifestRef, CborError> {
    var f :- FieldsOf(v);
    var (x, f) :- Req(f, 1);
    var id :- AsBytes(x);
    var (x, f) :- Req(f, 2);
    var size :- AsU64(x);
    var (x, f) :- Req(f, 3);
    var chunks :- AsU32Field(x);
    var (x, f) := Take(f, 4);
    var durability :- Optional(x, DurabilityFrom);
    var _ :- DenyUnknown(f);
    Ok(ManifestRef(id, size, chunks, durability))
  }

  datatype Attachment = Attachment(
    name: Str, mime: Str, size: U64, inline: Option<Bytes>, manifest: Option<ManifestRef>, key: Bytes)

  function AttachmentSlots(a: Attachment): seq<Slot> {
    [(1, Some(Text(a.name))), (2, Some(Text(a.mime))), (3, Some(Uint(a.size))), (4, Opt(a.inline, BstrCv)),
     (5, Opt(a.manifest, ManifestCv)), (6, Some(Bstr(a.key)))]
  }

  function AttachmentCv(a: Attachment): Cv {
    Map(Build(AttachmentSlots(a)))
  }

  function AttachmentFrom(v: Cv): Result<Attachment, CborError> {
    var f :- FieldsOf(v);
    var (x, f) :- Req(f, 1);
    var name :- AsText(x);
    var (x, f) :- Req(f, 2);
    var mime :- AsText(x);
    var (x, f) :- Req(f, 3);
    var size :- AsU64(x);
    var (x, f) := Take(f, 4);
    var inline :- Optional(x, AsBytes);
    var (x, f) := Take(f, 5);
    var manifest :- Optional(x, ManifestFrom);
    var (x, f) :- Req(f, 6);
    var key :- AsBytes(x);
    var _ :- DenyUnknown(f);
    Ok(Attachment(name, mime, size, inline, manifest, key))
  }

  // ---------------------------------------------------------------- headers and payload

  datatype Headers = Headers(
    thread: Option<Bytes>, subject: Option<Str>, mime: Option<Str>, cc: seq<Bytes>,
    ext: seq<(Str, Cv)>, sensitive: Option<bool>)

  /** The headers around an extension field, which is absent when there are no extensions. */
  function HeadersAround(h: Headers, ext: Option<Cv>): seq<Slot> {
    [(1, Opt(h.thread, BstrCv)), (2, Opt(h.subject, TextCv)), (3, Opt(h.mime, TextCv)), (4, Some(BytesList(h.cc))),
     (5, ext), (6, Opt(h.sensitive, BoolCv))]
  }

  function HeadersSlots(h: Headers): seq<Slot> {
    HeadersAround(h, if h.ext == [] then None else Some(TextMap(h.ext)))
  }

  function HeadersCv(h: Headers): Cv {
    Map(Build(HeadersSlots(h)))
  }

  /** The extension map: absent, a text map, or an empty map of undetermined kind. */
  function ExtFrom(x: Option<Cv>): Result<seq<(Str, Cv)>, CborError> {
    match x
    case None => Ok([])
    case Some(TextMap(t)) => Ok(t)
    case Some(Map(m)) => if m == [] then Ok([]) else Err(TypeMismatch)
    case Some(_) => Err(TypeMismatch)
  }

  function HeadersFrom(v: Cv): Result<Headers, CborError> {
    var f :- FieldsOf(v);
    var (x, f) := Take(f, 1);
    var thread :- Optional(x, AsBytes);
    var (x, f) := Take(f, 2);
    var subject :- Optional(x, AsText);
    var (x, f) := Take(f, 3);
    var mime :- Optional(x, AsText);
    var (x, f) :- Req(f, 4);
    var items :- AsArray(x);
    var cc :- Collect(items, AsBytes);
    var (x, f) := Take(f, 5);
    var ext :- ExtFrom(x);
    var (x, f) := Take(f, 6);
    var sensitive :- Optional(x, AsBool);
    var _ :- DenyUnknown(f);
    Ok(Headers(thread, subject, mime, cc, ext, sensitive))
  }

  datatype Payload = Payload(
    from: Bytes, sig: Bytes, headers: Headers, body: Bytes, refs: seq<Bytes>, attach: seq<Attachment>,
    expires: Option<U64>)

  function AttachList(attach: seq<Attachment>): Cv {
    Array(seq(|attach|, i requires 0 <= i < |attach| => AttachmentCv(attach[i])))
  }

  /** The payload without its signature: what is signed. */
  function BodySlots(p: Payload): seq<Slot> {
    [(1, Some(Bstr(p.from))), (3, Some(HeadersCv(p.headers))), (4, Some(Bstr(p.body))), (5, Some(BytesList(p.refs))),
     (6, Some(AttachList(p.attach))), (7, Opt(p.expires, UintCv))]
  }

  /** The payload as it is sealed, around its headers. */
  function PayloadAround(p: Payload, headers: Cv): seq<Slot> {
    [(1, Some(Bstr(p.from))), (2, Some(Bstr(p.sig))), (3, Some(headers)), (4, Some(Bstr(p.body))),
     (5, Some(BytesList(p.refs))), (6, Some(AttachList(p.attach))), (7, Opt(p.expires, UintCv))]
  }

  function PayloadSlots(p: Payload): seq<Slot> {
    PayloadAround(p, HeadersCv(p.headers))
  }

  function BodyCv(p: Payload): Cv {
    Map(Build(BodySlots(p)))
  }

  function PayloadCv(p: Payload): Cv {
    Map(Build(PayloadSlots(p)))
  }

  function PayloadFrom(v: Cv): Result<Payload, CborError> {
    var f :- FieldsOf(v);
    var (x, f) :- Req(f, 1);
    var from :- AsBytes(x);
    var (x, f) :- Req(f, 2);
    var sig :- AsBytes(x);
    var (x, f) :- Req(f, 3);
    var headers :- HeadersFrom(x);
    var (x, f) :- Req(f, 4);
    var body :- AsBytes(x);
    var (x, f) :- Req(f, 5);
    var items :- AsArray(x);
    var refs :- Collect(items, AsBytes);
    var (x, f) :- Req(f, 6);
    var items :- AsArray(x);
    var attach :- Collect(items, AttachmentFrom);
    var (x, f) := Take(f, 7);
    var expires :- Optional(x, AsU64);
    var _ :- DenyUnknown(f);
    Ok(Payload(from, sig, headers, body, refs, attach, expires))
  }
}
