/** How a frame is sealed for the fleet: the nonce and the cleartext header made
    of its author and sequence. The cipher and the signature scheme themselves
    are parameters. */
module Sealing {
  import opened Basics
  import opened Contracts
  import opened CompactFrame

  /** A cipher under one group key, and every member's signature. */
  datatype Crypto = Crypto(
    seal: (seq<byte>, seq<byte>, seq<byte>) -> seq<byte>,
    open: (seq<byte>, seq<byte>, seq<byte>) -> Option<seq<byte>>,
    sign: (u16, seq<byte>) -> signature,
    verify: (u16, seq<byte>, signature) -> bool)

  /** What is sealed opens again under the same nonce and header, sixteen bytes
      longer, and what a member signs verifies as that member's. */
  ghost predicate Sound(c: Crypto) {
    (forall nonce, aad, plain :: c.open(nonce, aad, c.seal(nonce, aad, plain)) == Some(plain))
    && (forall nonce, aad, plain :: |c.seal(nonce, aad, plain)| == |plain| + TAG_BYTES)
    && (forall member, message :: c.verify(member, message, c.sign(member, message)))
  }

  function NonceFor(author: u16, sequence: u64): seq<byte> {
    BigEndian(author, 2) + BigEndian(sequence, 8) + [0, 0]
  }

  function Header(author: u16, sequence: u64): seq<byte> {
    BigEndian(author, 2) + BigEndian(sequence, 8)
  }

  function SealFrame(c: Crypto, author: u16, sequence: u64, plain: seq<byte>): seq<byte> {
    Header(author, sequence) + c.seal(NonceFor(author, sequence), Header(author, sequence), plain)
  }

  /** The header, read without opening: a claim and no more. */
  function PeekHeader(frame: seq<byte>): (r: Option<(u16, u64)>) {
    if |frame| <= FRAME_HEADER_BYTES then None
    else
      SpanValues();
      Some((FromBigEndian(frame[..2]), FromBigEndian(frame[2..FRAME_HEADER_BYTES])))
  }

  function OpenFrame(c: Crypto, frame: seq<byte>): Option<(u16, u64, seq<byte>)> {
    match PeekHeader(frame)
    case None => None
    case Some((author, sequence)) =>
      match c.open(NonceFor(author, sequence), Header(author, sequence), frame[FRAME_HEADER_BYTES..])
      case None => None
      case Some(plain) => Some((author, sequence, plain))
  }

  lemma {:induction false} FromBigEndianRoundTrip(bytes: seq<byte>)
    ensures BigEndian(FromBigEndian(bytes), |bytes|) == bytes
    decreases |bytes|
  {
    if bytes != [] {
      var front := bytes[..|bytes| - 1];
      FromBigEndianRoundTrip(front);
      LowByte(bytes[|bytes| - 1], FromBigEndian(front));
      assert bytes == front + [bytes[|bytes| - 1]];
    }
  }

  /** The nonce says exactly who sealed and under which sequence. */
  lemma NonceInjective(a: u16, s: u64, b: u16, t: u64)
    ensures NonceFor(a, s) == NonceFor(b, t) <==> a == b && s == t
  {
    if NonceFor(a, s) == NonceFor(b, t) {
      SpanValues();
      assert NonceFor(a, s)[..2] == BigEndian(a, 2) && NonceFor(a, s)[2..10] == BigEndian(s, 8);
      assert NonceFor(b, t)[..2] == BigEndian(b, 2) && NonceFor(b, t)[2..10] == BigEndian(t, 8);
      BigEndianInjective(a, b, 2);
      BigEndianInjective(s, t, 8);
    }
  }

  lemma HeaderRoundTrip(author: u16, sequence: u64, body: seq<byte>)
    requires body != []
    ensures PeekHeader(Header(author, sequence) + body) == Some((author, sequence))
  {
    var frame := Header(author, sequence) + body;
    SpanValues();
    assert frame[..2] == BigEndian(author, 2);
    assert frame[2..10] == BigEndian(sequence, 8);
    BigEndianRoundTrip(author, 2);
    BigEndianRoundTrip(sequence, 8);
  }

  /** A sealed frame opens to what went in, under the header it was given. */
  lemma SealRoundTrip(c: Crypto, author: u16, sequence: u64, plain: seq<byte>)
    requires Sound(c)
    ensures OpenFrame(c, SealFrame(c, author, sequence, plain)) == Some((author, sequence, plain))
    ensures |SealFrame(c, author, sequence, plain)| == FRAME_HEADER_BYTES + |plain| + TAG_BYTES
  {
    var body := c.seal(NonceFor(author, sequence), Header(author, sequence), plain);
    HeaderRoundTrip(author, sequence, body);
    assert (Header(author, sequence) + body)[FRAME_HEADER_BYTES..] == body;
  }

  // ---- a whole frame, from envelope to air and back ----

  function SignedBy(c: Crypto, e: Envelope, contentHash: digest): Signed {
    Signed(e, c.sign(e.author, Transcript(e, contentHash)))
  }

  /** The frame an author puts on the air for an envelope. */
  function FrameOf(c: Crypto, e: Envelope, contentHash: digest): seq<byte> {
    SealFrame(c, e.author, e.sequence, EncodeCompact(SignedBy(c, e, contentHash)))
  }

  /** The envelope a receiver believes: it opens, its header and its contents
      name the same author and sequence, the author is in the fleet and the
      signature over the claim's own hash verifies. */
  function Believed(c: Crypto, fleet: nat, contentHash: digest, frame: seq<byte>): Option<Envelope> {
    match OpenFrame(c, frame)
    case None => None
    case Some((author, sequence, plain)) =>
      match DecodeCompact(plain)
      case None => None
      case Some(s) =>
        var e := s.envelope;
        if author != e.author || sequence != e.sequence then None
        else if e.author >= fleet then None
        else if !c.verify(e.author, Transcript(e, contentHash), s.signature) then None
        else Some(e)
  }

  /** What an author seals, every receiver believes; and it fits the slot. */
  lemma FrameIsBelieved(c: Crypto, fleet: nat, contentHash: digest, e: Envelope)
    requires Sound(c) && e.author < fleet
    ensures Believed(c, fleet, contentHash, FrameOf(c, e, contentHash)) == Some(e)
    ensures |FrameOf(c, e, contentHash)| < MAX_FRAME_BYTES
  {
    var s := SignedBy(c, e, contentHash);
    var plain := EncodeCompact(s);
    SealRoundTrip(c, e.author, e.sequence, plain);
    CompactRoundTrip(s, []);
    assert plain + [] == plain;
    FrameFitsTheSlot(s);
  }


  /** A frame opens exactly if its body was sealed under the nonce and the very
      header bytes it comes with. */
  lemma OpensExactly(c: Crypto, frame: seq<byte>, author: u16, sequence: u64, plain: seq<byte>)
    ensures OpenFrame(c, frame) == Some((author, sequence, plain))
       <==> |frame| > FRAME_HEADER_BYTES && frame[..FRAME_HEADER_BYTES] == Header(author, sequence)
            && c.open(NonceFor(author, sequence), frame[..FRAME_HEADER_BYTES], frame[FRAME_HEADER_BYTES..])
               == Some(plain)
  {
    if |frame| > FRAME_HEADER_BYTES {
      SpanValues();
      var head := frame[..FRAME_HEADER_BYTES];
      assert head[..2] == frame[..2] && head[2..] == frame[2..FRAME_HEADER_BYTES];
      FromBigEndianRoundTrip(frame[..2]);
      FromBigEndianRoundTrip(frame[2..FRAME_HEADER_BYTES]);
      assert head == head[..2] + head[2..];
      BigEndianRoundTrip(author, 2);
      BigEndianRoundTrip(sequence, 8);
      if head == Header(author, sequence) {
        assert head[..2] == BigEndian(author, 2) && head[2..] == BigEndian(sequence, 8);
      }
    }
  }

  /** The frame opens to this signed envelope, under a header that names the same
      author and sequence. */
  predicate Carries(c: Crypto, frame: seq<byte>, s: Signed) {
    match OpenFrame(c, frame)
    case None => false
    case Some((author, sequence, plain)) =>
      author == s.envelope.author && sequence == s.envelope.sequence && DecodeCompact(plain) == Some(s)
  }

  /** Whatever the bytes and whoever made them: an envelope is believed exactly if
      the frame carries it with a signature of its own author that verifies over
      its transcript, and its author is in the fleet. */
  lemma BelievedExactly(c: Crypto, fleet: nat, contentHash: digest, frame: seq<byte>, e: Envelope)
    ensures Believed(c, fleet, contentHash, frame) == Some(e)
       <==> e.author < fleet
            && exists sig: signature ::
                 c.verify(e.author, Transcript(e, contentHash), sig) && Carries(c, frame, Signed(e, sig))
  {
    if Believed(c, fleet, contentHash, frame) == Some(e) {
      var s := DecodeCompact(OpenFrame(c, frame).value.2).value;
      assert s == Signed(e, s.signature) && Carries(c, frame, s);
    }
  }

  lemma BelievedNamesItsHeader(c: Crypto, fleet: nat, contentHash: digest, frame: seq<byte>, e: Envelope)
    requires Believed(c, fleet, contentHash, frame) == Some(e)
    ensures PeekHeader(frame) == Some((e.author, e.sequence))
  {
  }

  /** A nonce is the cleartext header and two zeros. */
  lemma NonceIs(author: u16, sequence: u64)
    ensures |NonceFor(author, sequence)| == 12 && PeekHeader(NonceFor(author, sequence)) == Some((author, sequence))
    ensures NonceFor(author, sequence)[10] == NonceFor(author, sequence)[11] == 0
  {
    HeaderRoundTrip(author, sequence, [0, 0]);
  }
}
