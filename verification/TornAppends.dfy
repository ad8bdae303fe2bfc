/** A failed append that leaves something behind, and what becomes of the
    record that is appended after it. */
module TornAppends {
  import opened Basics
  import opened Journal
  import opened Recovery
  import opened LogFormat
  import opened LogJournal
  import Crc

  // ---- where recovery gets to ----

  /** Recovery, reading one record after another, comes to stand exactly at this
      offset. */
  predicate Reaches<E>(f: Format<E>, bytes: seq<byte>, at: nat)
    decreases |bytes|
  {
    at == 0
    || match f.read(bytes)
       case None => false
       case Some((_, n)) => 0 < n <= |bytes| && n <= at && Reaches(f, bytes[n..], at - n)
  }

  /** It gets there, and believes the record it finds. */
  predicate BelievesAt<E>(f: Format<E>, bytes: seq<byte>, at: nat)
    requires at <= |bytes|
  {
    Reaches(f, bytes, at) && f.read(bytes[at..]).Some?
  }

  /** Past bytes that are wholly believed, recovery sees only what follows. */
  lemma {:induction false} ReachesAfter<E(!new)>(f: Format<E>, a: seq<byte>, b: seq<byte>, at: nat)
    requires Lawful(f) && BelievedLength(f, a) == |a|
    ensures Reaches(f, a + b, |a| + at) <==> Reaches(f, b, at)
    decreases |a|
  {
    if a == [] {
      assert a + b == b;
    } else {
      var (_, n) := f.read(a).value;
      assert ReadsLocally(f, a, a + b);
      assert (a + b)[..n] == a[..n];
      assert (a + b)[n..] == a[n..] + b;
      ReachesAfter(f, a[n..], b, at);
    }
  }

  /** Recovery keeps a file up to a place it gets to. */
  lemma {:induction false} KeepsWhereItGets<E(!new)>(f: Format<E>, bytes: seq<byte>)
    requires Lawful(f)
    ensures Reaches(f, bytes, BelievedLength(f, bytes))
    decreases |bytes|
  {
    if f.read(bytes).Some? {
      assert ReadsLocally(f, bytes, bytes);
      KeepsWhereItGets(f, bytes[f.read(bytes).value.1..]);
    }
  }

  /** Whatever follows a torn record, no record is read there that ends inside it
      or where it stops. */
  lemma TornIsNotRead<E(!new)>(f: Format<E>, e: E, left: nat, rest: seq<byte>)
    requires Lawful(f) && f.good(e) && 0 < left < |f.write(e)|
    ensures var bytes := f.write(e)[..left] + rest;
            f.read(bytes).Some? ==> left < f.read(bytes).value.1 <= |bytes|
  {
    var torn := f.write(e)[..left];
    var bytes := torn + rest;
    assert ReadsBack(f, e);
    assert forall n | 0 <= n <= left :: torn[..n] == bytes[..n];
    assert ReadsLocally(f, bytes, torn);
  }

  lemma WholeIsPassed<E(!new)>(f: Format<E>, e: E, rest: seq<byte>)
    requires Lawful(f) && f.good(e)
    ensures f.read(f.write(e) + rest).Some?
  {
    assert ReadsBack(f, e);
  }

  // ---- the record after a failed append ----

  /** Recovery gets to the end of what a failed append left exactly when it left
      nothing or the whole record. */
  lemma ReachesLeftovers<E(!new)>(f: Format<E>, file: seq<byte>, e: E, left: nat, rest: seq<byte>)
    requires Lawful(f) && f.good(e) && BelievedLength(f, file) == |file|
    ensures var part := Written(f.write(e), Torn(left));
            Reaches(f, file + part + rest, |file + part|) <==> left == 0 || left >= |f.write(e)|
  {
    var part := Written(f.write(e), Torn(left));
    Associative(file, part, rest);
    ReachesAfter(f, file, part + rest, |part|);
    if 0 < left < |f.write(e)| {
      TornIsNotRead(f, e, left, rest);
    } else if left > 0 {
      assert part == f.write(e);
      BelievedCons(f, e, rest);
      assert (part + rest)[|part|..] == rest;
      assert Reaches(f, rest, 0);
      assert ReadsBack(f, e);
    }
  }

  lemma NextIsFound<E(!new)>(
    f: Format<E>, file: seq<byte>, e: E, left: nat, g: E, rest: seq<byte>)
    requires Lawful(f) && f.good(e) && f.good(g) && BelievedLength(f, file) == |file|
    ensures var after := file + Written(f.write(e), Torn(left));
            BelievesAt(f, after + (f.write(g) + rest), |after|) <==> left == 0 || left >= |f.write(e)|
  {
    var after := file + Written(f.write(e), Torn(left));
    ReachesLeftovers(f, file, e, left, f.write(g) + rest);
    WholeIsPassed(f, g, rest);
    assert (after + (f.write(g) + rest))[|after|..] == f.write(g) + rest;
  }

  /** The file after the failed append holds the old state or the new one. */
  lemma LeftoversHold(file: seq<byte>, st: State, e: Entry, left: nat)
    requires Holds(file, st) && Encodable(e) && (left == 0 || left >= |Record(e)|)
    ensures Holds(file + Written(Record(e), Torn(left)), if left == 0 then st else Apply(st, e))
  {
    if left == 0 {
      assert Record(e)[..0] == [];
      assert file + [] == file;
    } else {
      assert Record(e)[..|Record(e)|] == Record(e);
      AppendHolds(file, st, e);
    }
  }

  /** Recovery of the journal's file believes a record at this offset. */
  ghost predicate FindsAt(bytes: seq<byte>, at: nat)
    requires at <= |bytes|
  {
    BelievesAt(JournalFormat(), bytes, at)
  }

  /** After a failed append, the next record that is appended is found by recovery,
      whatever comes after it, exactly when the failure left nothing or the whole
      record. */
  lemma SafeToAppendExactly(
    file: seq<byte>, st: State, e: Entry, left: nat, g: Entry, rest: seq<byte>)
    requires Holds(file, st) && Encodable(e) && Encodable(g)
    ensures var after := file + Written(Record(e), Torn(left));
            FindsAt(after + (Record(g) + rest), |after|) <==> left == 0 || left >= |Record(e)|
  {
    HoldsMeans(file, st);
    JournalFormatIsLawful();
    NextIsFound(JournalFormat(), file, e, left, g, rest);
  }

  /** Found, it takes effect on what the failed append left of the state. */
  lemma FoundTakesEffect(file: seq<byte>, st: State, e: Entry, left: nat, g: Entry)
    requires Holds(file, st) && Encodable(e) && Encodable(g)
    requires left == 0 || left >= |Record(e)|
    ensures var after := file + Written(Record(e), Torn(left));
            Recovered(after) == (if left == 0 then st else Apply(st, e))
            && Holds(after + Record(g), Apply(Recovered(after), g))
  {
    var after := file + Written(Record(e), Torn(left));
    LeftoversHold(file, st, e, left);
    HoldsMeans(after, if left == 0 then st else Apply(st, e));
    AppendHolds(after, Recovered(after), g);
  }

  lemma StopsElsewhere<E(!new)>(f: Format<E>, file: seq<byte>, e: E, left: nat, rest: seq<byte>)
    requires Lawful(f) && f.good(e) && BelievedLength(f, file) == |file|
    requires 0 < left < |f.write(e)|
    ensures var after := file + Written(f.write(e), Torn(left));
            BelievedLength(f, after + rest) != |after|
  {
    ReachesLeftovers(f, file, e, left, rest);
    KeepsWhereItGets(f, file + Written(f.write(e), Torn(left)) + rest);
  }

  /** Otherwise recovery never even stops where it begins: either it believes
      nothing after the old file, and has forgotten it, or it takes the torn
      bytes and some of the next record's for one record. */
  lemma LostIsForgotten(
    file: seq<byte>, st: State, e: Entry, left: nat, g: Entry, rest: seq<byte>)
    requires Holds(file, st) && Encodable(e) && 0 < left < |Record(e)|
    ensures var after := file + Written(Record(e), Torn(left));
            var bytes := after + (Record(g) + rest);
            Kept(bytes) != |after|
            && (Kept(bytes) <= |after| ==> Kept(bytes) == |file| && Recovered(bytes) == st)
  {
    var after := file + Written(Record(e), Torn(left));
    var tail := Record(e)[..left] + (Record(g) + rest);
    var f := JournalFormat();
    HoldsMeans(file, st);
    JournalFormatIsLawful();
    StopsElsewhere(f, file, e, left, Record(g) + rest);
    Associative(file, Record(e)[..left], Record(g) + rest);
    BelievedJoin(f, file, tail);
    if Kept(after + (Record(g) + rest)) <= |after| {
      TornIsNotRead(f, e, left, Record(g) + rest);
      assert Believed(f, file) + [] == Believed(f, file);
    }
  }

  lemma FramedPair(payload: seq<byte>, checksum: seq<byte>)
    requires |payload| == 2 && |checksum| == 4
    ensures |Framed(payload, checksum)| == 10
    ensures Framed(payload, checksum)[..3] == [2, 0, 0]
  {
    assert LittleEndian(0, 2) == [0] + LittleEndian(0, 1);
    assert LittleEndian(2, 4) == [2] + LittleEndian(0, 3);
    assert Framed(payload, checksum)[..3] == LittleEndian(2, 4)[..3];
  }

  /** The record of the first reservation. */
  lemma FirstReservation()
    ensures Encodable(Sequence(1))
    ensures |Record(Sequence(1))| == 10 && Record(Sequence(1))[..3] == [2, 0, 0]
  {
    SmallRecordsEncode(Sequence(1));
    var payload := EncodeEntry(Sequence(1));
    assert payload == [1, 1];
    FramedPair(payload, Crc.ChecksumBytes(Crc.Crc32(payload)));
  }

  lemma AbsurdLength(bytes: seq<byte>)
    requires 4 <= |bytes| <= 100 && bytes[..4] == [2, 2, 0, 0]
    ensures ReadRecord(bytes) == None
  {
    assert [2, 2, 0, 0][1..] == [2, 0, 0];
    assert FromLittleEndian([2, 0, 0]) >= 2;
    assert FromLittleEndian(bytes[..4]) >= 512;
  }

  lemma OneByteThenTheRest(r: seq<byte>)
    requires |r| == 10 && r[..3] == [2, 0, 0]
    ensures Recovered(Written(r, Torn(1)) + Written(r, Synced)) == EMPTY
  {
    var bytes := Written(r, Torn(1)) + Written(r, Synced);
    assert r[0] == r[..3][0] && r[1] == r[..3][1] && r[2] == r[..3][2];
    assert bytes[..4] == [2, 2, 0, 0];
    AbsurdLength(bytes);
    NothingBelieved(bytes);
  }

  /** One byte left behind by a failed reservation is enough to lose the next
      one: it returns, yet a reopened journal has never heard of it and hands
      the same sequence out again. */
  lemma TornAppendLosesTheNext()
    ensures Encodable(Sequence(1))
    ensures var r := Record(Sequence(1));
            Recovered(Written(r, Torn(1)) + Written(r, Synced)) == EMPTY
  {
    FirstReservation();
    OneByteThenTheRest(Record(Sequence(1)));
  }

  lemma NothingBelieved(bytes: seq<byte>)
    requires ReadRecord(bytes) == None
    ensures Recovered(bytes) == EMPTY
  {
    assert JournalFormat().read(bytes) == None;
  }
}
