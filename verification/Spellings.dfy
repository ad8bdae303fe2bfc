/** What the readers accept. A number may be padded, so one entry or frame has many
    spellings; the written one is the only shortest. Text is what encodes scalar
    values. */
module Spellings {
  import opened Basics
  import opened Postcard
  import opened Journal
  import opened LogFormat
  import opened CompactFrame

  // ---- the shortest spelling ----

  /** What stands before `rest` is at least as long as the written form, and the
      written form itself if it is no longer. */
  ghost predicate Reads(bytes: seq<byte>, rest: seq<byte>, written: seq<byte>) {
    |rest| <= |bytes| && bytes[|bytes| - |rest|..] == rest
    && |bytes| >= |written| + |rest|
    && (|bytes| == |written| + |rest| ==> bytes[..|written|] == written)
  }

  lemma Then(a: seq<byte>, b: seq<byte>, c: seq<byte>, first: seq<byte>, second: seq<byte>)
    requires Reads(a, b, first) && Reads(b, c, second)
    ensures Reads(a, c, first + second)
  {
    assert a == a[..|a| - |b|] + b && b == b[..|b| - |c|] + c;
    assert a[|a| - |c|..] == b[|b| - |c|..];
    if |a| == |first| + |second| + |c| {
      assert |b| == |second| + |c|;
      assert a == first + (second + c);
      assert a[..|first + second|] == first + second;
    }
  }

  lemma Four(bytes: seq<byte>, r1: seq<byte>, r2: seq<byte>, r3: seq<byte>, rest: seq<byte>,
             a: seq<byte>, b: seq<byte>, c: seq<byte>, d: seq<byte>)
    requires Reads(bytes, r1, a) && Reads(r1, r2, b) && Reads(r2, r3, c) && Reads(r3, rest, d)
    ensures Reads(bytes, rest, a + (b + (c + d)))
  {
    Then(r2, r3, rest, c, d);
    Then(r1, r2, rest, b, c + d);
    Then(bytes, r1, rest, a, b + (c + d));
  }

  lemma Continues(bytes: seq<byte>, rest: seq<byte>, high: nat)
    requires bytes != [] && bytes[0] >= 128 && Reads(bytes[1..], rest, Varint(high))
    ensures Reads(bytes, rest, Varint(bytes[0] % 128 + 128 * high))
  {
    var low := bytes[0] % 128;
    if high > 0 {
      LowByteOf(low, high);
      assert bytes[..1] == [bytes[0]];
      Then(bytes, bytes[1..], rest, [bytes[0]], Varint(high));
    } else {
      assert |bytes| >= 2 + |rest|;
      assert bytes[|bytes| - |rest|..] == bytes[1..][|bytes| - 1 - |rest|..];
    }
  }

  lemma LowByteOf(low: nat, high: nat)
    requires low < 128 && high > 0
    ensures Varint(low + 128 * high) == [128 + low] + Varint(high)
  {
    assert (low + 128 * high) % 128 == low && (low + 128 * high) / 128 == high;
  }

  /** Padding makes a number longer, and nothing else spells it as short as it is
      written. */
  lemma {:induction false} VarintReads(bytes: seq<byte>, limit: nat, last: nat)
    requires last < 128 && ReadVarint(bytes, limit, last).Got?
    ensures Reads(bytes, ReadVarint(bytes, limit, last).rest, Varint(ReadVarint(bytes, limit, last).value))
    decreases limit
  {
    if bytes[0] < 128 {
      assert bytes[..1] == [bytes[0]];
    } else {
      VarintReads(bytes[1..], limit - 1, last);
      Continues(bytes, ReadVarint(bytes[1..], limit - 1, last).rest,
                ReadVarint(bytes[1..], limit - 1, last).value);
    }
  }

  lemma NumbersRead(bytes: seq<byte>)
    ensures ReadU16(bytes).Got? ==> Reads(bytes, ReadU16(bytes).rest, Varint(ReadU16(bytes).value))
    ensures ReadU32(bytes).Got? ==> Reads(bytes, ReadU32(bytes).rest, Varint(ReadU32(bytes).value))
    ensures ReadU64(bytes).Got? ==> Reads(bytes, ReadU64(bytes).rest, Varint(ReadU64(bytes).value))
  {
    if ReadU16(bytes).Got? {
      VarintReads(bytes, 3, 3);
    }
    if ReadU32(bytes).Got? {
      VarintReads(bytes, 5, 15);
    }
    if ReadU64(bytes).Got? {
      VarintReads(bytes, 10, 1);
    }
  }

  lemma RawReads(bytes: seq<byte>, n: nat)
    ensures ReadRaw(bytes, n).Got? ==> Reads(bytes, ReadRaw(bytes, n).rest, ReadRaw(bytes, n).value)
    ensures ReadByte(bytes).Got? ==> Reads(bytes, ReadByte(bytes).rest, [ReadByte(bytes).value])
  {
  }

  lemma BytesRead(bytes: seq<byte>)
    ensures ReadBytes(bytes).Got? ==> Reads(bytes, ReadBytes(bytes).rest, Bytes(ReadBytes(bytes).value))
    ensures ReadText(bytes).Got? ==> Reads(bytes, ReadText(bytes).rest, Bytes(ReadText(bytes).value))
  {
    if ReadBytes(bytes).Got? {
      var Got(length, rest) := ReadU64(bytes);
      NumbersRead(bytes);
      RawReads(rest, length);
      Then(bytes, rest, ReadBytes(bytes).rest, Varint(length), ReadBytes(bytes).value);
    }
  }

  lemma OptionalReads(bytes: seq<byte>)
    requires ReadOptionalU64(bytes).Got?
    ensures Reads(bytes, ReadOptionalU64(bytes).rest, OptionalU64(ReadOptionalU64(bytes).value))
  {
    RawReads(bytes, 0);
    if bytes[0] == 1 {
      NumbersRead(bytes[1..]);
      Then(bytes, bytes[1..], ReadOptionalU64(bytes).rest, [1], Varint(ReadU64(bytes[1..]).value));
    }
  }

  // ---- a journal entry ----

  lemma FrameReads(bytes: seq<byte>)
    requires ReadFrame(bytes).Got?
    ensures var Got(f, rest) := ReadFrame(bytes);
            Reads(bytes, rest, FrameFields(f.sequence, f.bytes, f.expiresAt))
  {
    var Got(sequence, r1) := ReadU64(bytes);
    var Got(sealed, r2) := ReadBytes(r1);
    var Got(expiresAt, r3) := ReadOptionalU64(r2);
    NumbersRead(bytes);
    BytesRead(r1);
    OptionalReads(r2);
    Then(r1, r2, r3, Bytes(sealed), OptionalU64(expiresAt));
    Then(bytes, r1, r3, Varint(sequence), Bytes(sealed) + OptionalU64(expiresAt));
  }

  /** These fields are those of this entry, the way they were read. */
  ghost predicate FieldsRead(variant: u32, body: seq<byte>, e: Entry, rest: seq<byte>) {
    Variant(e) == variant && Reads(body, rest, Fields(e))
  }

  lemma VoteReads(variant: u32, body: seq<byte>, e: Entry, rest: seq<byte>)
    requires variant == 0 && ReadFields(variant, body) == Got(e, rest)
    ensures FieldsRead(variant, body, e, rest)
  {
    var r1 := ReadText(body).rest;
    BytesRead(body);
    FrameReads(r1);
    Then(body, r1, rest, Bytes(e.key), FrameFields(e.sequence, e.bytes, e.expiresAt));
  }

  lemma SeenReads(variant: u32, body: seq<byte>, e: Entry, rest: seq<byte>)
    requires variant == 2 && ReadFields(variant, body) == Got(e, rest)
    ensures FieldsRead(variant, body, e, rest)
  {
    var r1 := ReadU16(body).rest;
    NumbersRead(body);
    NumbersRead(r1);
    Then(body, r1, rest, Varint(e.sender), Varint(e.sequence));
  }

  lemma WitnessedJoins(body: seq<byte>, author: text, r1: seq<byte>, bytes: seq<byte>, rest: seq<byte>)
    requires ReadText(body) == Got(author, r1) && ReadBytes(r1) == Got(bytes, rest)
    ensures Reads(body, rest, Bytes(author) + Bytes(bytes))
  {
    BytesRead(body);
    BytesRead(r1);
    Then(body, r1, rest, Bytes(author), Bytes(bytes));
  }

  lemma WitnessedReads(variant: u32, body: seq<byte>, e: Entry, rest: seq<byte>)
    requires variant == 5 && ReadFields(variant, body) == Got(e, rest)
    ensures FieldsRead(variant, body, e, rest)
  {
    WitnessedJoins(body, e.author, ReadText(body).rest, e.bytes, rest);
  }

  lemma LockIsText(variant: u32, body: seq<byte>, e: Entry, rest: seq<byte>)
    requires variant == 6 && ReadFields(variant, body) == Got(e, rest)
    ensures e.Lock? && ReadText(body) == Got(e.key, rest)
  {
  }

  lemma LockReads(body: seq<byte>, key: text, rest: seq<byte>)
    requires ReadText(body) == Got(key, rest)
    ensures Reads(body, rest, Fields(Lock(key)))
  {
    BytesRead(body);
  }

  lemma FrameEntryReads(body: seq<byte>, e: Entry, rest: seq<byte>)
    requires ReadFrame(body) == Got(e, rest)
    ensures e.Frame? && Reads(body, rest, Fields(e))
  {
    FrameReads(body);
  }

  lemma CounterReads(variant: u32, body: seq<byte>, e: Entry, rest: seq<byte>)
    requires ReadFields(variant, body) == Got(e, rest) && (variant == 1 || variant == 3 || variant == 4)
    ensures FieldsRead(variant, body, e, rest)
  {
    NumbersRead(body);
  }

  lemma AnyFieldsRead(variant: u32, body: seq<byte>, e: Entry, rest: seq<byte>)
    requires ReadFields(variant, body) == Got(e, rest)
    ensures FieldsRead(variant, body, e, rest)
  {
    if variant == 0 {
      VoteReads(variant, body, e, rest);
    } else if variant == 2 {
      SeenReads(variant, body, e, rest);
    } else if variant == 5 {
      WitnessedReads(variant, body, e, rest);
    } else if variant == 6 {
      LockIsText(variant, body, e, rest);
      LockReads(body, e.key, rest);
    } else if variant == 7 {
      LastVariant(body);
      FrameEntryReads(body, e, rest);
    } else {
      CounterReads(variant, body, e, rest);
    }
  }

  /** Whatever decodes to an entry is at least as long as the entry's own encoding, and
      that encoding itself if it is no longer. */
  lemma DecodedIsNoShorter(payload: seq<byte>, e: Entry)
    requires DecodeEntry(payload) == Some(e)
    ensures |payload| >= |EncodeEntry(e)|
    ensures |payload| == |EncodeEntry(e)| ==> payload == EncodeEntry(e)
  {
    var Got(variant, body) := ReadU32(payload);
    var rest := ReadFields(variant, body).rest;
    NumbersRead(payload);
    AnyFieldsRead(variant, body, e, rest);
    Then(payload, body, rest, Varint(variant), Fields(e));
    assert payload[..|payload|] == payload;
  }

  /** The written encoding is the one shortest payload that decodes to the entry. */
  lemma EncodingIsTheShortest(e: Entry, payload: seq<byte>)
    requires Encodable(e)
    ensures DecodeEntry(EncodeEntry(e)) == Some(e)
    ensures DecodeEntry(payload) == Some(e) && |payload| <= |EncodeEntry(e)|
       <==> payload == EncodeEntry(e)
  {
    EntryRoundTrip(e);
    if DecodeEntry(payload) == Some(e) {
      DecodedIsNoShorter(payload, e);
    }
  }

  // ---- a frame ----

  lemma ClaimReads(bytes: seq<byte>, e: Envelope)
    requires ReadClaim(bytes).Got?
    requires ReadClaim(bytes).value == Claim(e.missionEpoch, e.event, e.revision, e.caseId, e.startedAt)
    ensures Reads(bytes, ReadClaim(bytes).rest, EncodeClaim(e))
  {
    var r1 := ReadU16(bytes).rest;
    var r2 := ReadU32(r1).rest;
    var r3 := ReadU16(r2).rest;
    var r4 := ReadRaw(r3, 8).rest;
    var rest := ReadU64(r4).rest;
    NumbersRead(bytes);
    NumbersRead(r1);
    NumbersRead(r2);
    RawReads(r3, 8);
    NumbersRead(r4);
    Then(r3, r4, rest, e.caseId, Varint(e.startedAt));
    Then(r2, r3, rest, Varint(e.revision), e.caseId + Varint(e.startedAt));
    Then(r1, r2, rest, Varint(e.event), Varint(e.revision) + (e.caseId + Varint(e.startedAt)));
    Then(bytes, r1, rest, Varint(e.missionEpoch),
         Varint(e.event) + (Varint(e.revision) + (e.caseId + Varint(e.startedAt))));
  }

  lemma NumberRead(bytes: seq<byte>, n: nat, rest: seq<byte>)
    ensures n <= 0xFFFF && ReadU16(bytes) == Got(n, rest) ==> Reads(bytes, rest, Varint(n))
    ensures n <= U64_MAX && ReadU64(bytes) == Got(n, rest) ==> Reads(bytes, rest, Varint(n))
  {
    NumbersRead(bytes);
  }

  lemma ByteRead(bytes: seq<byte>, b: byte, rest: seq<byte>)
    requires ReadByte(bytes) == Got(b, rest)
    ensures Reads(bytes, rest, [b])
  {
  }

  lemma UtteranceReads(bytes: seq<byte>, e: Envelope)
    requires ReadUtterance(bytes).Got?
    requires ReadUtterance(bytes).value == Utterance(e.author, e.stage, e.verdict, e.sequence)
    ensures Reads(bytes, ReadUtterance(bytes).rest, EncodeUtterance(e))
  {
    var r1 := ReadU16(bytes).rest;
    var r2 := ReadByte(r1).rest;
    var r3 := ReadByte(r2).rest;
    var rest := ReadU64(r3).rest;
    NumberRead(bytes, e.author, r1);
    ByteRead(r1, e.stage, r2);
    ByteRead(r2, e.verdict, r3);
    NumberRead(r3, e.sequence, rest);
    Four(bytes, r1, r2, r3, rest, Varint(e.author), [e.stage], [e.verdict], Varint(e.sequence));
  }

  lemma MarksRead(bytes: seq<byte>, e: Envelope)
    requires ReadMarks(bytes).Got? && ReadMarks(bytes).value == Marks(e.heard, e.round)
    ensures Reads(bytes, ReadMarks(bytes).rest, EncodeMarks(e))
  {
    var r1 := ReadRaw(bytes, 8).rest;
    var r2 := ReadU16(r1).rest;
    var rest := ReadU32(r2).rest;
    RawReads(bytes, 8);
    NumbersRead(r1);
    NumbersRead(r2);
    Then(r1, r2, rest, Varint(e.round.opener), Varint(e.round.sequence));
    Then(bytes, r1, rest, e.heard, Varint(e.round.opener) + Varint(e.round.sequence));
  }

  lemma FrameJoins(bytes: seq<byte>, r1: seq<byte>, r2: seq<byte>, r3: seq<byte>, rest: seq<byte>, s: Signed)
    requires Reads(bytes, r1, EncodeClaim(s.envelope)) && Reads(r1, r2, EncodeUtterance(s.envelope))
    requires Reads(r2, r3, EncodeMarks(s.envelope)) && Reads(r3, rest, Bytes(s.signature))
    ensures Reads(bytes, rest, EncodeCompact(s))
  {
    var e := s.envelope;
    Four(bytes, r1, r2, r3, rest, EncodeClaim(e), EncodeUtterance(e), EncodeMarks(e), Bytes(s.signature));
  }

  lemma PartsRead(s: Signed, bytes: seq<byte>, r1: seq<byte>, r2: seq<byte>, r3: seq<byte>, rest: seq<byte>)
    requires var e := s.envelope;
             ReadClaim(bytes) == Got(Claim(e.missionEpoch, e.event, e.revision, e.caseId, e.startedAt), r1)
             && ReadUtterance(r1) == Got(Utterance(e.author, e.stage, e.verdict, e.sequence), r2)
             && ReadMarks(r2) == Got(Marks(e.heard, e.round), r3)
             && ReadBytes(r3) == Got(s.signature, rest)
    ensures Reads(bytes, rest, EncodeCompact(s))
  {
    ClaimReads(bytes, s.envelope);
    UtteranceReads(r1, s.envelope);
    MarksRead(r2, s.envelope);
    BytesRead(r3);
    FrameJoins(bytes, r1, r2, r3, rest, s);
  }

  lemma DecodedFrameIsNoShorter(s: Signed, bytes: seq<byte>)
    requires DecodeCompact(bytes) == Some(s)
    ensures |bytes| >= |EncodeCompact(s)|
    ensures |bytes| == |EncodeCompact(s)| ==> bytes == EncodeCompact(s)
  {
    var r1 := ReadClaim(bytes).rest;
    var r2 := ReadUtterance(r1).rest;
    var r3 := ReadMarks(r2).rest;
    PartsRead(s, bytes, r1, r2, r3, ReadBytes(r3).rest);
    assert bytes[..|bytes|] == bytes;
  }

  /** The written frame is the one shortest that decodes to the signed envelope:
      anything else that does is longer. */
  lemma FrameIsTheShortest(s: Signed, bytes: seq<byte>)
    ensures DecodeCompact(bytes) == Some(s) && |bytes| <= |EncodeCompact(s)|
       <==> bytes == EncodeCompact(s)
  {
    CompactRoundTrip(s, []);
    assert EncodeCompact(s) + [] == EncodeCompact(s);
    if DecodeCompact(bytes) == Some(s) {
      DecodedFrameIsNoShorter(s, bytes);
    }
  }

  // ---- every spelling of a number ----

  /** Seven bits a byte, the low end first, and every byte but the last says that
      another one follows. */
  predicate SpellsNumber(word: seq<byte>, n: nat)
    decreases |word|
  {
    word != []
    && if |word| == 1 then word[0] < 128 && n == word[0]
       else word[0] >= 128 && n % 128 == word[0] - 128 && SpellsNumber(word[1..], n / 128)
  }

  /** Within the limit, and without a bit too many in the last byte it may have. */
  predicate SpelledWithin(word: seq<byte>, n: nat, limit: nat, last: nat) {
    SpellsNumber(word, n) && |word| <= limit && (|word| == limit ==> word[|word| - 1] <= last)
  }

  lemma WithinTail(word: seq<byte>, n: nat, limit: nat, last: nat)
    requires limit > 0 && word != [] && word[0] >= 128
    ensures SpelledWithin(word, n, limit, last)
       <==> n % 128 == word[0] - 128 && SpelledWithin(word[1..], n / 128, limit - 1, last)
  {
  }

  lemma VarintTail(word: seq<byte>, rest: seq<byte>, n: nat, limit: nat, last: nat)
    requires last < 128 && limit > 0 && word != [] && word[0] >= 128
    ensures ReadVarint(word + rest, limit, last) == Got(n, rest)
       <==> n % 128 == word[0] - 128
            && ReadVarint(word[1..] + rest, limit - 1, last) == Got(n / 128, rest)
  {
    TailOf(word, rest);
    TailReads(word[0], word[1..] + rest, n, rest, limit, last);
    assert [word[0]] + (word[1..] + rest) == word + rest;
  }

  lemma TailOf(word: seq<byte>, rest: seq<byte>)
    requires word != []
    ensures (word + rest)[0] == word[0] && (word + rest)[1..] == word[1..] + rest
  {
  }

  lemma TailReads(first: byte, tail: seq<byte>, n: nat, rest: seq<byte>, limit: nat, last: nat)
    requires last < 128 && limit > 0 && first >= 128
    ensures ReadVarint([first] + tail, limit, last) == Got(n, rest)
       <==> n % 128 == first - 128 && ReadVarint(tail, limit - 1, last) == Got(n / 128, rest)
  {
    assert ([first] + tail)[1..] == tail;
  }

  lemma VarintEnds(word: seq<byte>, rest: seq<byte>, n: nat, limit: nat, last: nat)
    requires last < 128 && limit > 0 && word != [] && word[0] < 128
    ensures ReadVarint(word + rest, limit, last) == Got(n, rest)
       <==> |word| == 1 && n == word[0] && (limit == 1 ==> word[0] <= last)
  {
    assert (word + rest)[1..] == word[1..] + rest;
    assert |word[1..] + rest| == |word| - 1 + |rest|;
    if |word| == 1 {
      assert word[1..] + rest == rest;
    }
  }

  /** Reading takes a word as this number exactly if it spells it within the limit,
      padded or not. */
  lemma {:induction false} VarintReadsExactly(word: seq<byte>, rest: seq<byte>, n: nat, limit: nat, last: nat)
    requires last < 128
    ensures ReadVarint(word + rest, limit, last) == Got(n, rest)
       <==> SpelledWithin(word, n, limit, last)
    decreases limit
  {
    if word == [] {
      assert word + rest == rest;
    } else if limit > 0 && word[0] < 128 {
      VarintEnds(word, rest, n, limit, last);
    } else if limit > 0 {
      VarintTail(word, rest, n, limit, last);
      WithinTail(word, n, limit, last);
      VarintReadsExactly(word[1..], rest, n / 128, limit - 1, last);
    }
  }

  // ---- text ----

  /** Unicode scalar values (The Unicode Standard, definition D76). */
  type scalar = c: int | 0 <= c <= 0xD7FF || 0xE000 <= c <= 0x10_FFFF

  function Low(c: nat): byte {
    0x80 + c % 64
  }

  /** How UTF-8 encodes a scalar value (The Unicode Standard, table 3-6). */
  function EncodedScalar(c: scalar): (r: seq<byte>)
    ensures 1 <= |r| <= 4
  {
    if c <= 0x7F then [c]
    else if c <= 0x7FF then [0xC0 + c / 64, Low(c)]
    else if c <= 0xFFFF then [0xE0 + c / 64 / 64, Low(c / 64), Low(c)]
    else [0xF0 + c / 64 / 64 / 64, Low(c / 64 / 64), Low(c / 64), Low(c)]
  }

  function EncodedText(cs: seq<scalar>): seq<byte> {
    if cs == [] then [] else EncodedScalar(cs[0]) + EncodedText(cs[1..])
  }

  lemma ScalarHasItsWidth(c: scalar, rest: seq<byte>)
    ensures CharWidth(EncodedScalar(c) + rest) == |EncodedScalar(c)|
  {
    var s := EncodedScalar(c) + rest;
    assert forall i :: 0 <= i < |EncodedScalar(c)| ==> s[i] == EncodedScalar(c)[i];
  }

  lemma Shifted(high: nat, low: nat)
    requires low < 64
    ensures (high * 64 + low) / 64 == high && (high * 64 + low) % 64 == low
  {
  }

  lemma TwoBytes(a: byte, b: byte) returns (c: scalar)
    requires 0xC2 <= a <= 0xDF && Continuation(b)
    ensures EncodedScalar(c) == [a, b]
  {
    Shifted(a - 0xC0, b - 0x80);
    c := (a as int - 0xC0) * 64 + (b - 0x80);
  }

  lemma ThreeBytes(a: byte, b: byte, d: byte) returns (c: scalar)
    requires 0xE0 <= a <= 0xEF && Continuation(b) && Continuation(d)
    requires (a == 0xE0 ==> b >= 0xA0) && (a == 0xED ==> b <= 0x9F)
    ensures EncodedScalar(c) == [a, b, d]
  {
    var high: nat := (a as int - 0xE0) * 64 + (b - 0x80);
    Shifted(a - 0xE0, b - 0x80);
    Shifted(high, d - 0x80);
    c := high * 64 + (d - 0x80);
  }

  lemma FourBytes(a: byte, b: byte, d: byte, e: byte) returns (c: scalar)
    requires 0xF0 <= a <= 0xF4 && Continuation(b) && Continuation(d) && Continuation(e)
    requires (a == 0xF0 ==> b >= 0x90) && (a == 0xF4 ==> b <= 0x8F)
    ensures EncodedScalar(c) == [a, b, d, e]
  {
    var top: nat := (a as int - 0xF0) * 64 + (b - 0x80);
    var high: nat := top * 64 + (d - 0x80);
    Shifted(a - 0xF0, b - 0x80);
    Shifted(top, d - 0x80);
    Shifted(high, e - 0x80);
    c := high * 64 + (e - 0x80);
  }

  lemma CharIsScalar(s: seq<byte>) returns (c: scalar)
    requires s != [] && CharWidth(s) > 0
    ensures s[..CharWidth(s)] == EncodedScalar(c)
  {
    var w := CharWidth(s);
    if w == 1 {
      c := s[0];
    } else if w == 2 {
      c := TwoBytes(s[0], s[1]);
    } else if w == 3 {
      c := ThreeBytes(s[0], s[1], s[2]);
    } else {
      c := FourBytes(s[0], s[1], s[2], s[3]);
    }
  }

  lemma {:induction false} EncodedIsUtf8(cs: seq<scalar>)
    ensures Utf8(EncodedText(cs))
  {
    if cs != [] {
      var first, rest := EncodedScalar(cs[0]), EncodedText(cs[1..]);
      ScalarHasItsWidth(cs[0], rest);
      EncodedIsUtf8(cs[1..]);
      assert (first + rest)[|first|..] == rest;
    }
  }

  lemma {:induction false} Utf8IsEncoded(s: seq<byte>) returns (cs: seq<scalar>)
    requires Utf8(s)
    ensures s == EncodedText(cs)
    decreases |s|
  {
    if s == [] {
      cs := [];
    } else {
      var w := CharWidth(s);
      var c := CharIsScalar(s);
      var rest := Utf8IsEncoded(s[w..]);
      cs := [c] + rest;
      assert cs[1..] == rest && s == s[..w] + s[w..];
    }
  }

  /** A string is what encodes some scalar values, and nothing else. */
  lemma Utf8Exactly(s: seq<byte>)
    ensures Utf8(s) <==> exists cs: seq<scalar> :: s == EncodedText(cs)
  {
    if Utf8(s) {
      var cs := Utf8IsEncoded(s);
    }
    if cs: seq<scalar> :| s == EncodedText(cs) {
      EncodedIsUtf8(cs);
    }
  }
}
