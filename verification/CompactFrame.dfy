/** The frame that goes on the air, addressed by manifest indices: its postcard
    encoding, the bytes its signature covers, and how wide it can get. */
module CompactFrame {
  import opened Basics
  import opened Postcard
  import opened Contracts

  type eight = s: seq<byte> | |s| == 8 witness seq(8, _ => 0)
  type signature = s: seq<byte> | |s| == 64 witness seq(64, _ => 0)

  datatype RoundId = RoundId(opener: u16, sequence: u32)

  /** `caseId` is the short reference to the claim, `heard` the bitmap of
      members the sender has heard. */
  datatype Envelope = Envelope(
    missionEpoch: u16,
    event: u32,
    revision: u16,
    caseId: eight,
    startedAt: u64,
    author: u16,
    stage: byte,
    verdict: byte,
    sequence: u64,
    heard: eight,
    round: RoundId)

  datatype Signed = Signed(envelope: Envelope, signature: signature)

  const MAX_FRAME_BYTES: nat := 152
  const TAG_BYTES: nat := 16
  const FRAME_HEADER_BYTES: nat := 10

  // ---- encoding ----

  function EncodeMarks(e: Envelope): seq<byte> {
    e.heard + (Varint(e.round.opener) + Varint(e.round.sequence))
  }

  function EncodeUtterance(e: Envelope): seq<byte> {
    Varint(e.author) + ([e.stage] + ([e.verdict] + Varint(e.sequence)))
  }

  function EncodeClaim(e: Envelope): seq<byte> {
    Varint(e.missionEpoch)
    + (Varint(e.event) + (Varint(e.revision) + (e.caseId + Varint(e.startedAt))))
  }

  function EncodeCompact(s: Signed): seq<byte> {
    EncodeClaim(s.envelope)
    + (EncodeUtterance(s.envelope) + (EncodeMarks(s.envelope) + Bytes(s.signature)))
  }

  // ---- decoding ----

  datatype Claim = Claim(missionEpoch: u16, event: u32, revision: u16, caseId: eight, startedAt: u64)
  datatype Utterance = Utterance(author: u16, stage: byte, verdict: byte, sequence: u64)
  datatype Marks = Marks(heard: eight, round: RoundId)

  function ReadClaim(bytes: seq<byte>): Read<Claim> {
    var (missionEpoch, r1) :- ReadU16(bytes);
    var (event, r2) :- ReadU32(r1);
    var (revision, r3) :- ReadU16(r2);
    var (caseId, r4) :- ReadRaw(r3, 8);
    var (startedAt, rest) :- ReadU64(r4);
    Got(Claim(missionEpoch, event, revision, caseId, startedAt), rest)
  }

  function ReadUtterance(bytes: seq<byte>): Read<Utterance> {
    var (author, r1) :- ReadU16(bytes);
    var (stage, r2) :- ReadByte(r1);
    var (verdict, r3) :- ReadByte(r2);
    var (sequence, rest) :- ReadU64(r3);
    Got(Utterance(author, stage, verdict, sequence), rest)
  }

  function ReadMarks(bytes: seq<byte>): Read<Marks> {
    var (heard, r1) :- ReadRaw(bytes, 8);
    var (opener, r2) :- ReadU16(r1);
    var (sequence, rest) :- ReadU32(r2);
    Got(Marks(heard, RoundId(opener, sequence)), rest)
  }

  /** Whatever follows the last field is ignored, as `postcard::from_bytes` does. */
  function DecodeCompact(bytes: seq<byte>): Option<Signed> {
    match ReadClaim(bytes)
    case Failed => None
    case Got(c, r1) =>
      match ReadUtterance(r1)
      case Failed => None
      case Got(u, r2) =>
        match ReadMarks(r2)
        case Failed => None
        case Got(m, r3) =>
          match ReadBytes(r3)
          case Failed => None
          case Got(sig, _) =>
            if |sig| != 64 then None
            else
              Some(Signed(Envelope(c.missionEpoch, c.event, c.revision, c.caseId, c.startedAt,
                                   u.author, u.stage, u.verdict, u.sequence, m.heard, m.round),
                          sig))
  }

  // ---- round trip ----

  lemma ClaimRoundTrip(e: Envelope, rest: seq<byte>)
    ensures ReadClaim(EncodeClaim(e) + rest)
         == Got(Claim(e.missionEpoch, e.event, e.revision, e.caseId, e.startedAt), rest)
  {
    var b4 := Varint(e.startedAt) + rest;
    var b3 := e.caseId + b4;
    var b2 := Varint(e.revision) + b3;
    var b1 := Varint(e.event) + b2;
    assert EncodeClaim(e) + rest == Varint(e.missionEpoch) + b1;
    U16RoundTrip(e.missionEpoch, b1);
    U32RoundTrip(e.event, b2);
    U16RoundTrip(e.revision, b3);
    RawRoundTrip(e.caseId, b4);
    U64RoundTrip(e.startedAt, rest);
  }

  lemma UtteranceRoundTrip(e: Envelope, rest: seq<byte>)
    ensures ReadUtterance(EncodeUtterance(e) + rest)
         == Got(Utterance(e.author, e.stage, e.verdict, e.sequence), rest)
  {
    var b3 := Varint(e.sequence) + rest;
    var b2 := [e.verdict] + b3;
    var b1 := [e.stage] + b2;
    assert EncodeUtterance(e) + rest == Varint(e.author) + b1;
    U16RoundTrip(e.author, b1);
    assert b1[1..] == b2 && b2[1..] == b3;
    U64RoundTrip(e.sequence, rest);
  }

  lemma MarksRoundTrip(e: Envelope, rest: seq<byte>)
    ensures ReadMarks(EncodeMarks(e) + rest) == Got(Marks(e.heard, e.round), rest)
  {
    var b2 := Varint(e.round.sequence) + rest;
    var b1 := Varint(e.round.opener) + b2;
    assert EncodeMarks(e) + rest == e.heard + b1;
    RawRoundTrip(e.heard, b1);
    U16RoundTrip(e.round.opener, b2);
    U32RoundTrip(e.round.sequence, rest);
  }

  /** Every frame decodes to exactly what was encoded, whatever follows it. */
  lemma CompactRoundTrip(s: Signed, rest: seq<byte>)
    ensures DecodeCompact(EncodeCompact(s) + rest) == Some(s)
  {
    var b3 := Bytes(s.signature) + rest;
    var b2 := EncodeMarks(s.envelope) + b3;
    var b1 := EncodeUtterance(s.envelope) + b2;
    assert EncodeCompact(s) + rest == EncodeClaim(s.envelope) + b1;
    ClaimRoundTrip(s.envelope, b1);
    UtteranceRoundTrip(s.envelope, b2);
    MarksRoundTrip(s.envelope, b3);
    BytesRoundTrip(s.signature, rest);
  }

  // ---- width ----

  lemma ClaimWidth(e: Envelope)
    ensures |EncodeClaim(e)| <= 29
  {
    Ranges();
    VarintLength(e.missionEpoch, 3, 3);
    VarintLength(e.event, 5, 15);
    VarintLength(e.revision, 3, 3);
    VarintLength(e.startedAt, 10, 1);
  }

  lemma UtteranceWidth(e: Envelope)
    ensures |EncodeUtterance(e)| <= 15
  {
    Ranges();
    VarintLength(e.author, 3, 3);
    VarintLength(e.sequence, 10, 1);
  }

  lemma MarksWidth(e: Envelope)
    ensures |EncodeMarks(e)| <= 16
  {
    Ranges();
    VarintLength(e.round.opener, 3, 3);
    VarintLength(e.round.sequence, 5, 15);
  }

  lemma SignatureWidth(s: signature)
    ensures |Bytes(s)| == 65
  {
  }

  /** A sealed frame, header and tag included, never outgrows its slot: votes,
      openings and repair requests are all this one shape. */
  lemma FrameFitsTheSlot(s: Signed)
    ensures FRAME_HEADER_BYTES + |EncodeCompact(s)| + TAG_BYTES < MAX_FRAME_BYTES
  {
    ClaimWidth(s.envelope);
    UtteranceWidth(s.envelope);
    MarksWidth(s.envelope);
    SignatureWidth(s.signature);
  }

  lemma OneByteLonger(n: nat)
    requires n >= 128
    ensures |Varint(n)| == 1 + |Varint(n / 128)|
  {
  }

  lemma {:induction false} WidestVarints()
    ensures |Varint(0xFFFF)| == 3 && |Varint(0xFFFF_FFFF)| == 5 && |Varint(U64_MAX)| == 10
  {
    OneByteLonger(U64_MAX);
    OneByteLonger(U64_MAX / 0x80);
    OneByteLonger(U64_MAX / 0x4000);
    OneByteLonger(U64_MAX / 0x20_0000);
    OneByteLonger(U64_MAX / 0x1000_0000);
    OneByteLonger(0xFFFF_FFFF);
    OneByteLonger(0xFFFF_FFFF / 0x80);
    OneByteLonger(0xFFFF);
    var mid := U64_MAX / 0x8_0000_0000;
    assert mid == 0x1FFF_FFFF;
    OneByteLonger(mid);
    OneByteLonger(mid / 0x80);
    OneByteLonger(mid / 0x4000);
    OneByteLonger(mid / 0x20_0000);
    OneByteLonger(0xFFFF_FFFF / 0x4000);
    OneByteLonger(0xFFFF_FFFF / 0x20_0000);
    OneByteLonger(0xFFFF / 0x80);
  }

  /** The widest frame misses the slot's size by exactly one byte. */
  lemma WidestFrame()
    ensures exists s: Signed ::
      FRAME_HEADER_BYTES + |EncodeCompact(s)| + TAG_BYTES == MAX_FRAME_BYTES - 1
  {
    WidestVarints();
    var zeros: eight := seq(8, _ => 0);
    var sig: signature := seq(64, _ => 0);
    var e := Envelope(0xFFFF, 0xFFFF_FFFF, 0xFFFF, zeros, U64_MAX, 0xFFFF, 3, 1, U64_MAX,
                      zeros, RoundId(0xFFFF, 0xFFFF_FFFF));
    SignatureWidth(sig);
    assert |EncodeClaim(e)| == 29 && |EncodeUtterance(e)| == 15 && |EncodeMarks(e)| == 16;
    assert |EncodeCompact(Signed(e, sig))| == 125;
  }

  // ---- what the signature covers ----

  const COMPACT_DOMAIN: seq<byte> :=
    [0x6C, 0x63, 0x71, 0x2D, 0x76, 0x31, 0x2D, 0x63, 0x6F, 0x6D, 0x70, 0x61, 0x63, 0x74]

  function Concat(parts: seq<seq<byte>>): seq<byte> {
    if parts == [] then [] else parts[0] + Concat(parts[1..])
  }

  function TranscriptParts(e: Envelope, contentHash: digest): seq<seq<byte>> {
    [COMPACT_DOMAIN,
     [e.stage],
     BigEndian(e.missionEpoch, 2),
     BigEndian(e.event, 4),
     BigEndian(e.revision, 2),
     e.heard,
     BigEndian(e.round.opener, 2),
     BigEndian(e.round.sequence, 4),
     contentHash,
     e.caseId,
     BigEndian(e.startedAt, 8),
     BigEndian(e.author, 2),
     [e.verdict],
     BigEndian(e.sequence, 8)]
  }

  /** The bytes hashed for the signature. */
  function Transcript(e: Envelope, contentHash: digest): seq<byte> {
    Concat(TranscriptParts(e, contentHash))
  }

  lemma {:induction false} ConcatInjective(a: seq<seq<byte>>, b: seq<seq<byte>>)
    requires |a| == |b| && forall i :: 0 <= i < |a| ==> |a[i]| == |b[i]|
    requires Concat(a) == Concat(b)
    ensures a == b
  {
    if a != [] {
      assert Concat(a)[..|a[0]|] == a[0] && Concat(b)[..|a[0]|] == b[0];
      assert Concat(a)[|a[0]|..] == Concat(a[1..]) && Concat(b)[|a[0]|..] == Concat(b[1..]);
      ConcatInjective(a[1..], b[1..]);
      assert a == [a[0]] + a[1..] && b == [b[0]] + b[1..];
    }
  }

  lemma BigEndianInjective(m: nat, n: nat, width: nat)
    requires m < Span(width) && n < Span(width) && BigEndian(m, width) == BigEndian(n, width)
    ensures m == n
  {
    BigEndianRoundTrip(m, width);
    BigEndianRoundTrip(n, width);
  }

  /** Two frames are signed over the same bytes only if every field of theirs
      agrees, and the claim's full hash with them. */
  lemma TranscriptInjective(a: Envelope, g: digest, b: Envelope, h: digest)
    requires Transcript(a, g) == Transcript(b, h)
    ensures a == b && g == h
  {
    var p, q := TranscriptParts(a, g), TranscriptParts(b, h);
    ConcatInjective(p, q);
    SamePlace(p, q, a, b, g, h);
  }

  lemma SamePlace(
    p: seq<seq<byte>>, q: seq<seq<byte>>, a: Envelope, b: Envelope, g: digest, h: digest)
    requires p == TranscriptParts(a, g) && q == TranscriptParts(b, h) && p == q
    ensures a == b && g == h
  {
    SpanValues();
    assert p[1] == [a.stage] && q[1] == [b.stage];
    assert p[5] == a.heard && q[5] == b.heard && p[9] == a.caseId && q[9] == b.caseId;
    assert p[8] == g && q[8] == h;
    assert p[12] == [a.verdict] && q[12] == [b.verdict];
    BigEndianInjective(a.missionEpoch, b.missionEpoch, 2);
    BigEndianInjective(a.event, b.event, 4);
    BigEndianInjective(a.revision, b.revision, 2);
    BigEndianInjective(a.round.opener, b.round.opener, 2);
    BigEndianInjective(a.round.sequence, b.round.sequence, 4);
    BigEndianInjective(a.startedAt, b.startedAt, 8);
    BigEndianInjective(a.author, b.author, 2);
    BigEndianInjective(a.sequence, b.sequence, 8);
  }
}
