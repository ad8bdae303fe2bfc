/** The journal on disk: `length || payload || checksum` records, recovered as
    the longest prefix that can be believed. */
module LogFormat {
  import opened Basics
  import opened Postcard
  import opened Journal
  import opened Recovery
  import Crc

  const MAX_RECORD_BYTES: nat := 64 * 1024

  // ---- one entry ----

  function Variant(e: Entry): u32 {
    match e
    case Vote(_, _, _, _) => 0
    case Sequence(_) => 1
    case Seen(_, _) => 2
    case Epoch(_) => 3
    case Retired(_) => 4
    case Witnessed(_, _) => 5
    case Lock(_) => 6
    case Frame(_, _, _) => 7
  }

  function FrameFields(sequence: u64, bytes: seq<byte>, expiresAt: Option<u64>): seq<byte> {
    Varint(sequence) + (Bytes(bytes) + OptionalU64(expiresAt))
  }

  function Fields(e: Entry): seq<byte> {
    match e
    case Vote(key, sequence, bytes, expiresAt) =>
      Bytes(key) + FrameFields(sequence, bytes, expiresAt)
    case Sequence(next) => Varint(next)
    case Seen(sender, sequence) => Varint(sender) + Varint(sequence)
    case Epoch(epoch) => Varint(epoch)
    case Retired(sequence) => Varint(sequence)
    case Witnessed(author, bytes) => Bytes(author) + Bytes(bytes)
    case Lock(key) => Bytes(key)
    case Frame(sequence, bytes, expiresAt) => FrameFields(sequence, bytes, expiresAt)
  }

  function EncodeEntry(e: Entry): seq<byte> {
    Varint(Variant(e)) + Fields(e)
  }

  function ReadFrame(bytes: seq<byte>): (r: Read<Entry>)
    ensures r.Got? ==> r.value.Frame?
  {
    var (sequence, r1) :- ReadU64(bytes);
    var (sealed, r2) :- ReadBytes(r1);
    var (expiresAt, r3) :- ReadOptionalU64(r2);
    Got(Frame(sequence, sealed, expiresAt), r3)
  }

  function ReadFields(variant: u32, body: seq<byte>): Read<Entry> {
    if variant == 0 then
      var (key, r1) :- ReadText(body);
      var (frame, r2) :- ReadFrame(r1);
      Got(Vote(key, frame.sequence, frame.bytes, frame.expiresAt), r2)
    else if variant == 1 then
      var (next, r1) :- ReadU64(body);
      Got(Sequence(next), r1)
    else if variant == 2 then
      var (sender, r1) :- ReadU16(body);
      var (sequence, r2) :- ReadU64(r1);
      Got(Seen(sender, sequence), r2)
    else if variant == 3 then
      var (epoch, r1) :- ReadU16(body);
      Got(Epoch(epoch), r1)
    else if variant == 4 then
      var (sequence, r1) :- ReadU64(body);
      Got(Retired(sequence), r1)
    else if variant == 5 then
      var (author, r1) :- ReadText(body);
      var (bytes, r2) :- ReadBytes(r1);
      Got(Witnessed(author, bytes), r2)
    else if variant == 6 then
      var (key, r1) :- ReadText(body);
      Got(Lock(key), r1)
    else if variant == 7 then ReadFrame(body)
    else Failed
  }

  /** `postcard::from_bytes`: trailing bytes are not an error. */
  function DecodeEntry(payload: seq<byte>): Option<Entry> {
    match ReadU32(payload)
    case Failed => None
    case Got(variant, body) =>
      match ReadFields(variant, body)
      case Failed => None
      case Got(e, _) => Some(e)
  }

  /** Its payload is short enough for the reader to believe. */
  predicate Encodable(e: Entry) {
    |EncodeEntry(e)| <= MAX_RECORD_BYTES
  }

  lemma FrameRoundTrip(sequence: u64, bytes: seq<byte>, expiresAt: Option<u64>)
    requires |bytes| <= MAX_RECORD_BYTES
    ensures ReadFrame(FrameFields(sequence, bytes, expiresAt))
         == Got(Frame(sequence, bytes, expiresAt), [])
  {
    U64RoundTrip(sequence, Bytes(bytes) + OptionalU64(expiresAt));
    BytesRoundTrip(bytes, OptionalU64(expiresAt));
    OptionalU64RoundTrip(expiresAt, []);
    assert OptionalU64(expiresAt) + [] == OptionalU64(expiresAt);
  }

  lemma EndsWithU64(n: u64)
    ensures ReadU64(Varint(n)) == Got(n, [])
  {
    U64RoundTrip(n, []);
    assert Varint(n) + [] == Varint(n);
  }

  /** These fields read back as this entry. */
  ghost predicate ReadsAs(variant: u32, fields: seq<byte>, e: Entry) {
    ReadFields(variant, fields) == Got(e, [])
  }

  lemma VoteFields(key: text, sequence: u64, bytes: seq<byte>, expiresAt: Option<u64>)
    requires |key| <= MAX_RECORD_BYTES && |bytes| <= MAX_RECORD_BYTES
    ensures ReadsAs(0, Bytes(key) + FrameFields(sequence, bytes, expiresAt),
                    Vote(key, sequence, bytes, expiresAt))
  {
    TextRoundTrip(key, FrameFields(sequence, bytes, expiresAt));
    FrameRoundTrip(sequence, bytes, expiresAt);
  }

  lemma WitnessedFields(author: text, bytes: seq<byte>)
    requires |author| <= MAX_RECORD_BYTES && |bytes| <= MAX_RECORD_BYTES
    ensures ReadsAs(5, Bytes(author) + Bytes(bytes), Witnessed(author, bytes))
  {
    TextRoundTrip(author, Bytes(bytes));
    BytesRoundTrip(bytes, []);
    assert Bytes(bytes) + [] == Bytes(bytes);
  }

  lemma LockFields(key: text)
    requires |key| <= MAX_RECORD_BYTES
    ensures ReadsAs(6, Bytes(key), Lock(key))
  {
    TextRoundTrip(key, []);
    assert Bytes(key) + [] == Bytes(key);
  }

  lemma FrameEntryFields(sequence: u64, bytes: seq<byte>, expiresAt: Option<u64>)
    requires |bytes| <= MAX_RECORD_BYTES
    ensures ReadsAs(7, FrameFields(sequence, bytes, expiresAt), Frame(sequence, bytes, expiresAt))
  {
    FrameRoundTrip(sequence, bytes, expiresAt);
    LastVariant(FrameFields(sequence, bytes, expiresAt));
  }

  lemma LastVariant(body: seq<byte>)
    ensures ReadFields(7, body) == ReadFrame(body)
  {
  }

  lemma CounterFields(n: u64)
    ensures ReadsAs(1, Varint(n), Sequence(n)) && ReadsAs(4, Varint(n), Retired(n))
  {
    EndsWithU64(n);
  }

  lemma SeenFields(sender: u16, sequence: u64)
    ensures ReadsAs(2, Varint(sender) + Varint(sequence), Seen(sender, sequence))
  {
    U16RoundTrip(sender, Varint(sequence));
    EndsWithU64(sequence);
  }

  lemma EpochFields(epoch: u16)
    ensures ReadsAs(3, Varint(epoch), Epoch(epoch))
  {
    U16RoundTrip(epoch, []);
    assert Varint(epoch) + [] == Varint(epoch);
  }

  lemma PartsAreShort(e: Entry)
    requires Encodable(e)
    ensures e.Vote? ==> |e.key| <= MAX_RECORD_BYTES && |e.bytes| <= MAX_RECORD_BYTES
    ensures e.Frame? ==> |e.bytes| <= MAX_RECORD_BYTES
    ensures e.Witnessed? ==> |e.author| <= MAX_RECORD_BYTES && |e.bytes| <= MAX_RECORD_BYTES
    ensures e.Lock? ==> |e.key| <= MAX_RECORD_BYTES
  {
  }

  lemma FieldsReadAs(e: Entry)
    requires Encodable(e)
    ensures ReadsAs(Variant(e), Fields(e), e)
  {
    PartsAreShort(e);
    match e
    case Vote(key, sequence, bytes, expiresAt) => VoteFields(key, sequence, bytes, expiresAt);
    case Sequence(next) => CounterFields(next);
    case Seen(sender, sequence) => SeenFields(sender, sequence);
    case Epoch(epoch) => EpochFields(epoch);
    case Retired(sequence) => CounterFields(sequence);
    case Witnessed(author, bytes) => WitnessedFields(author, bytes);
    case Lock(key) => LockFields(key);
    case Frame(sequence, bytes, expiresAt) => FrameEntryFields(sequence, bytes, expiresAt);
  }

  lemma DecodesAs(variant: u32, fields: seq<byte>, e: Entry)
    requires ReadsAs(variant, fields, e)
    ensures DecodeEntry(Varint(variant) + fields) == Some(e)
  {
    U32RoundTrip(variant, fields);
    assert ReadFields(variant, fields) == Got(e, []);
  }

  lemma EntryRoundTrip(e: Entry)
    requires Encodable(e)
    ensures DecodeEntry(EncodeEntry(e)) == Some(e)
  {
    FieldsReadAs(e);
    DecodesAs(Variant(e), Fields(e), e);
  }

  // ---- one record ----

  /** A payload framed as it is written. */
  function Framed(payload: seq<byte>, checksum: seq<byte>): seq<byte> {
    LittleEndian(|payload|, 4) + payload + checksum
  }

  function Record(e: Entry): seq<byte> {
    Framed(EncodeEntry(e), Crc.ChecksumBytes(Crc.Crc32(EncodeEntry(e))))
  }

  /** The record at the front of `bytes` and its length, unless it is short,
      mis-checksummed or undecodable. */
  function ReadRecord(bytes: seq<byte>): Option<(Entry, nat)> {
    match Unframed(bytes)
    case None => None
    case Some((payload, stored)) => ReadPayload(payload, stored)
  }

  /** The payload and the checksum at the front, unless the record is short. */
  function Unframed(bytes: seq<byte>): Option<(seq<byte>, seq<byte>)> {
    if |bytes| < 4 then None
    else
      var length := FromLittleEndian(bytes[..4]);
      if length > MAX_RECORD_BYTES || 8 + length > |bytes| then None
      else Some((bytes[4..4 + length], bytes[4 + length..8 + length]))
  }

  function ReadPayload(payload: seq<byte>, stored: seq<byte>): Option<(Entry, nat)> {
    if stored != Crc.ChecksumBytes(Crc.Crc32(payload)) then None
    else
      match DecodeEntry(payload)
      case None => None
      case Some(e) => Some((e, 8 + |payload|))
  }

  lemma FramedHead(payload: seq<byte>, checksum: seq<byte>, rest: seq<byte>)
    requires |payload| <= MAX_RECORD_BYTES && |checksum| == 4
    ensures |Framed(payload, checksum)| == 8 + |payload|
    ensures Unframed(Framed(payload, checksum) + rest) == Some((payload, checksum))
  {
    var b := Framed(payload, checksum) + rest;
    SpanValues();
    LittleEndianRoundTrip(|payload|, 4);
    assert b[..4] == LittleEndian(|payload|, 4);
    assert b[4..4 + |payload|] == payload;
    assert b[4 + |payload|..8 + |payload|] == checksum;
  }

  lemma ReadFramed(payload: seq<byte>, e: Entry, rest: seq<byte>)
    requires |payload| <= MAX_RECORD_BYTES && DecodeEntry(payload) == Some(e)
    ensures var record := Framed(payload, Crc.ChecksumBytes(Crc.Crc32(payload)));
            ReadRecord(record + rest) == Some((e, |record|)) && |record| == 8 + |payload|
  {
    FramedHead(payload, Crc.ChecksumBytes(Crc.Crc32(payload)), rest);
  }

  lemma ReadWrittenRecord(e: Entry, rest: seq<byte>)
    requires Encodable(e)
    ensures |Record(e)| == 8 + |EncodeEntry(e)|
    ensures ReadRecord(Record(e) + rest) == Some((e, |Record(e)|))
  {
    EntryRoundTrip(e);
    ReadFramed(EncodeEntry(e), e, rest);
  }

  lemma LongHead(payload: seq<byte>, stored: seq<byte>, rest: seq<byte>)
    requires MAX_RECORD_BYTES < |payload| < 0x1_0000_0000
    ensures Unframed(Framed(payload, stored) + rest) == None
  {
    var b := Framed(payload, stored) + rest;
    SpanValues();
    LittleEndianRoundTrip(|payload|, 4);
    assert b[..4] == LittleEndian(|payload|, 4);
  }

  /** A record is believed exactly if it is no longer than a record may be, its own
      checksum stands behind it, and it decodes; and whole, whatever follows. */
  lemma BelievedRecordExactly(payload: seq<byte>, stored: seq<byte>, rest: seq<byte>)
    requires |payload| < 0x1_0000_0000 && |stored| == 4
    ensures ReadRecord(Framed(payload, stored) + rest)
         == if |payload| <= MAX_RECORD_BYTES && stored == Crc.ChecksumBytes(Crc.Crc32(payload))
               && DecodeEntry(payload).Some?
            then Some((DecodeEntry(payload).value, 8 + |payload|)) else None
  {
    if |payload| <= MAX_RECORD_BYTES {
      FramedHead(payload, stored, rest);
    } else {
      LongHead(payload, stored, rest);
    }
  }

  /** Nothing is believed that is not all there. */
  lemma UnfinishedIsNotBelieved(bytes: seq<byte>)
    requires |bytes| < 4 || |bytes| < 8 + FromLittleEndian(bytes[..4])
    ensures ReadRecord(bytes) == None
  {
  }

  lemma TornFrame(payload: seq<byte>, checksum: seq<byte>, cut: nat)
    requires |payload| <= MAX_RECORD_BYTES && |checksum| == 4
    requires cut < |Framed(payload, checksum)|
    ensures ReadRecord(Framed(payload, checksum)[..cut]) == None
  {
    var b := Framed(payload, checksum);
    if cut >= 4 {
      SpanValues();
      LittleEndianRoundTrip(|payload|, 4);
      assert b[..cut][..4] == LittleEndian(|payload|, 4);
    }
  }

  lemma SameSlice(a: seq<byte>, b: seq<byte>, n: nat, i: nat, j: nat)
    requires i <= j <= n <= |a| && n <= |b| && a[..n] == b[..n]
    ensures a[i..j] == b[i..j]
  {
    assert a[i..j] == a[..n][i..j] && b[i..j] == b[..n][i..j];
  }

  lemma UnframedIsLocal(a: seq<byte>, b: seq<byte>)
    requires Unframed(a).Some?
    ensures var n := 8 + |Unframed(a).value.0|;
            n <= |a| && (n <= |b| && b[..n] == a[..n] ==> Unframed(b) == Unframed(a))
  {
    var length := FromLittleEndian(a[..4]);
    var n := 8 + length;
    if n <= |b| && b[..n] == a[..n] {
      SameSlice(a, b, n, 0, 4);
      SameSlice(a, b, n, 4, 4 + length);
      SameSlice(a, b, n, 4 + length, n);
      assert a[0..4] == a[..4] && b[0..4] == b[..4];
    }
  }

  lemma PayloadWidth(payload: seq<byte>, stored: seq<byte>)
    ensures ReadPayload(payload, stored).Some? ==> ReadPayload(payload, stored).value.1 == 8 + |payload|
  {
  }

  lemma ReadIsLocal(a: seq<byte>, b: seq<byte>)
    requires ReadRecord(a).Some?
    ensures var n := ReadRecord(a).value.1;
            8 <= n <= |a| && (n <= |b| && b[..n] == a[..n] ==> ReadRecord(b) == ReadRecord(a))
  {
    PayloadWidth(Unframed(a).value.0, Unframed(a).value.1);
    UnframedIsLocal(a, b);
  }

  /** The journal's records, as a self-delimiting format. */
  function JournalFormat(): Format<Entry> {
    Format(Record, ReadRecord, Encodable)
  }

  /** A whole record is read back, a torn one never is, and reading looks at
      nothing beyond the record. */
  lemma JournalFormatIsLawful()
    ensures Lawful(JournalFormat())
  {
    var f := JournalFormat();
    forall e | f.good(e)
      ensures ReadsBack(f, e)
    {
      forall rest
        ensures f.read(f.write(e) + rest) == Some((e, |f.write(e)|))
      {
        ReadWrittenRecord(e, rest);
      }
      forall cut | 0 <= cut < |f.write(e)|
        ensures f.read(f.write(e)[..cut]) == None
      {
        TornFrame(EncodeEntry(e), Crc.ChecksumBytes(Crc.Crc32(EncodeEntry(e))), cut);
      }
    }
    forall a, b
      ensures ReadsLocally(f, a, b)
    {
      if f.read(a).Some? {
        ReadIsLocal(a, b);
      }
    }
  }

  // ---- the whole log ----

  /** The state recovery arrives at. */
  function Recovered(bytes: seq<byte>): State {
    ApplyAll(EMPTY, Believed(JournalFormat(), bytes))
  }

  /** How much of the file recovery keeps. */
  function Kept(bytes: seq<byte>): nat {
    BelievedLength(JournalFormat(), bytes)
  }

  /** Replay has got as far as `at` with `st`. */
  ghost predicate ReplayedTo(f: Format<Entry>, bytes: seq<byte>, at: nat, st: State) {
    at <= |bytes|
    && ApplyAll(st, Believed(f, bytes[at..])) == ApplyAll(EMPTY, Believed(f, bytes))
    && at + BelievedLength(f, bytes[at..]) == BelievedLength(f, bytes)
  }

  lemma ReplayedNothing(f: Format<Entry>, bytes: seq<byte>)
    ensures ReplayedTo(f, bytes, 0, EMPTY)
  {
    assert bytes[0..] == bytes;
  }

  lemma ReplayedOneMore(f: Format<Entry>, bytes: seq<byte>, at: nat, st: State)
    requires Lawful(f) && ReplayedTo(f, bytes, at, st) && f.read(bytes[at..]).Some?
    ensures var (e, n) := f.read(bytes[at..]).value;
            n > 0 && at + n <= |bytes| && ReplayedTo(f, bytes, at + n, Apply(st, e))
  {
    var rest := bytes[at..];
    assert ReadsLocally(f, rest, rest);
    var (e, n) := f.read(rest).value;
    assert Believed(f, rest)[1..] == Believed(f, rest[n..]);
    assert rest[n..] == bytes[at + n..];
  }

  lemma ReplayedAll(f: Format<Entry>, bytes: seq<byte>, at: nat, st: State)
    requires ReplayedTo(f, bytes, at, st) && f.read(bytes[at..]) == None
    ensures st == ApplyAll(EMPTY, Believed(f, bytes)) && at == BelievedLength(f, bytes)
  {
  }

  /** `f` reads the journal's records. */
  ghost predicate ReadsJournal(f: Format<Entry>) {
    Lawful(f) && forall b {:trigger ReadRecord(b)} :: f.read(b) == ReadRecord(b)
  }

  method CheckPayload(payload: seq<byte>, stored: seq<byte>) returns (r: Option<(Entry, nat)>)
    ensures r == ReadPayload(payload, stored)
  {
    if stored != Crc.ChecksumBytes(Crc.Crc32(payload)) {
      return None;
    }
    var entry := DecodeEntry(payload);
    return if entry == None then None else Some((entry.value, 8 + |payload|));
  }

  method UnframeAt(bytes: seq<byte>, at: nat) returns (r: Option<(seq<byte>, seq<byte>)>)
    requires at + 4 <= |bytes|
    ensures r == Unframed(bytes[at..])
  {
    assert bytes[at..][..4] == bytes[at..at + 4];
    var length := FromLittleEndian(bytes[at..at + 4]);
    if length > MAX_RECORD_BYTES {
      return None;
    }
    var payloadAt := at + 4;
    var crcAt := payloadAt + length;
    if crcAt + 4 > |bytes| {
      return None;
    }
    assert bytes[at..][4..4 + length] == bytes[payloadAt..crcAt];
    assert bytes[at..][4 + length..8 + length] == bytes[crcAt..crcAt + 4];
    return Some((bytes[payloadAt..crcAt], bytes[crcAt..crcAt + 4]));
  }

  /** The record at `at`, if it can be believed. */
  method RecordAt(bytes: seq<byte>, at: nat) returns (r: Option<(Entry, nat)>)
    requires at + 4 <= |bytes|
    ensures r == ReadRecord(bytes[at..])
  {
    var parts := UnframeAt(bytes, at);
    if parts == None {
      return None;
    }
    r := CheckPayload(parts.value.0, parts.value.1);
  }

  method ReadAt(ghost f: Format<Entry>, bytes: seq<byte>, at: nat)
    returns (r: Option<(Entry, nat)>)
    requires ReadsJournal(f) && at + 4 <= |bytes|
    ensures r == f.read(bytes[at..])
  {
    r := RecordAt(bytes, at);
  }

  /** Take the record at `at` into the state, if there is one to believe. */
  method ReplayOne(ghost f: Format<Entry>, bytes: seq<byte>, state: State, at: nat)
    returns (next: State, to: nat)
    requires ReadsJournal(f) && ReplayedTo(f, bytes, at, state) && at + 4 <= |bytes|
    ensures ReplayedTo(f, bytes, to, next) && at <= to <= |bytes|
    ensures to == at ==> f.read(bytes[at..]) == None && next == state
  {
    var record := ReadAt(f, bytes, at);
    if record == None {
      return state, at;
    }
    next, to := TakeIn(f, bytes, state, at, record.value.0, record.value.1);
  }

  method TakeIn(ghost f: Format<Entry>, bytes: seq<byte>, state: State, at: nat, e: Entry, n: nat)
    returns (next: State, to: nat)
    requires Lawful(f) && ReplayedTo(f, bytes, at, state) && f.read(bytes[at..]) == Some((e, n))
    ensures ReplayedTo(f, bytes, to, next) && at < to <= |bytes|
  {
    ReplayedOneMore(f, bytes, at, state);
    next, to := Apply(state, e), at + n;
  }

  method ReplayFrom(ghost f: Format<Entry>, bytes: seq<byte>) returns (state: State, at: nat)
    requires ReadsJournal(f)
    ensures state == ApplyAll(EMPTY, Believed(f, bytes)) && at == BelievedLength(f, bytes)
  {
    state := EMPTY;
    at := 0;
    ReplayedNothing(f, bytes);
    while at + 4 <= |bytes|
      invariant ReplayedTo(f, bytes, at, state) && at <= |bytes|
      decreases |bytes| - at
    {
      var next, to := ReplayOne(f, bytes, state, at);
      if to == at {
        ReplayedAll(f, bytes, at, state);
        return;
      }
      state, at := next, to;
    }
    ShortTail(f, bytes[at..]);
    ReplayedAll(f, bytes, at, state);
  }

  lemma ShortTail(f: Format<Entry>, bytes: seq<byte>)
    requires ReadsJournal(f) && |bytes| < 4
    ensures f.read(bytes) == None
  {
    assert f.read(bytes) == ReadRecord(bytes);
  }

  /** Recovery as the journal runs it. */
  method Replay(bytes: seq<byte>) returns (state: State, at: nat)
    ensures state == Recovered(bytes) && at == Kept(bytes)
  {
    JournalFormatIsLawful();
    state, at := ReplayFrom(JournalFormat(), bytes);
  }

  /** No damage yields a pending frame the counter has not moved past. */
  lemma RecoveredIsCoherent(bytes: seq<byte>)
    ensures Coherent(Recovered(bytes))
  {
    ApplyAllCoherent(EMPTY, Believed(JournalFormat(), bytes));
  }

  /** A payload altered inside four consecutive bytes ends the log: neither
      that record nor anything after it is believed. */
  lemma AlteredRecordEndsTheLog(
    whole: seq<Entry>, before: seq<byte>, x: seq<byte>, y: seq<byte>, after: seq<byte>,
    next: Entry, rest: seq<byte>)
    requires AllGood(JournalFormat(), whole)
    requires Encodable(next) && EncodeEntry(next) == before + x + after
    requires |x| == |y| <= 4 && x != y
    ensures var stored := Crc.ChecksumBytes(Crc.Crc32(EncodeEntry(next)));
            var damaged := Log(JournalFormat(), whole)
                         + (Framed(before + y + after, stored) + rest);
            Recovered(damaged) == ApplyAll(EMPTY, whole)
            && Kept(damaged) == |Log(JournalFormat(), whole)|
  {
    var f := JournalFormat();
    var payload := before + y + after;
    var stored := Crc.ChecksumBytes(Crc.Crc32(EncodeEntry(next)));
    var tail := Framed(payload, stored) + rest;
    Crc.BurstChangesChecksum(before, x, y, after);
    if stored == Crc.ChecksumBytes(Crc.Crc32(payload)) {
      Crc.ChecksumBytesInjective(Crc.Crc32(EncodeEntry(next)), Crc.Crc32(payload));
    }
    FramedHead(payload, stored, rest);
    assert f.read(tail) == None;
    JournalFormatIsLawful();
    BelievedAfterLog(f, whole, tail);
    assert whole + [] == whole;
  }
}
