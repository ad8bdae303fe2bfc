/** The journal that survives the process that wrote it. */
module LogJournal {
  import opened Basics
  import opened Postcard
  import opened Contracts
  import opened Journal
  import opened Recovery
  import opened LogFormat
  import opened Compaction
  import LockKey
  import Crc

  const COMPACT_THRESHOLD_BYTES: nat := 256 * 1024

  // ---- files and the states they hold ----

  /** The file replays to `st` and every byte of it is believed. (The quantifier
      only keeps the replay folded until `Kept` is asked about.) */
  ghost predicate Holds(file: seq<byte>, st: State) {
    forall bytes {:trigger Kept(bytes)} ::
      bytes == file ==> Recovered(bytes) == st && Kept(bytes) == |bytes|
  }

  lemma HoldsWhen(file: seq<byte>, st: State)
    requires Recovered(file) == st && Kept(file) == |file|
    ensures Holds(file, st)
  {
  }

  lemma HoldsMeans(file: seq<byte>, st: State)
    requires Holds(file, st)
    ensures Recovered(file) == st && Kept(file) == |file|
  {
    assert Kept(file) == |file|;
  }

  lemma RecoveredAppend(f: Format<Entry>, file: seq<byte>, e: Entry)
    requires Lawful(f) && f.good(e) && BelievedLength(f, file) == |file|
    ensures ApplyAll(EMPTY, Believed(f, file + f.write(e)))
         == Apply(ApplyAll(EMPTY, Believed(f, file)), e)
    ensures BelievedLength(f, file + f.write(e)) == |file + f.write(e)|
  {
    BelievedAppend(f, file, e);
    ApplyAllSplit(EMPTY, Believed(f, file), [e]);
    assert ApplyAll(ApplyAll(EMPTY, Believed(f, file)), [e])
        == Apply(ApplyAll(EMPTY, Believed(f, file)), e);
  }

  lemma AppendHolds(file: seq<byte>, st: State, e: Entry)
    requires Holds(file, st) && Encodable(e)
    ensures Holds(file + Record(e), Apply(st, e))
  {
    HoldsMeans(file, st);
    JournalFormatIsLawful();
    RecoveredAppend(JournalFormat(), file, e);
    HoldsWhen(file + Record(e), Apply(st, e));
  }

  /** A record in flight that was cut short is gone once the file is reopened. */
  lemma TornAppendRecovers(file: seq<byte>, st: State, e: Entry, cut: nat)
    requires Holds(file, st) && Encodable(e) && cut < |Record(e)|
    ensures Recovered(file + Record(e)[..cut]) == st
    ensures Kept(file + Record(e)[..cut]) == |file|
  {
    assert Kept(file) == |file|;
    JournalFormatIsLawful();
    TornAppend(JournalFormat(), file, e, cut);
  }

  /** `file` is what compaction writes for `st`, in some order. */
  ghost predicate IsCompaction(file: seq<byte>, st: State) {
    exists orders :: Walks(orders, st)
      && AllGood(JournalFormat(), Snapshot(st, orders))
      && file == Log(JournalFormat(), Snapshot(st, orders))
  }

  lemma RecoveredSnapshot(f: Format<Entry>, st: State, orders: Orders)
    requires Walks(orders, st) && Coherent(st)
    requires Lawful(f) && AllGood(f, Snapshot(st, orders))
    ensures ApplyAll(EMPTY, Believed(f, Log(f, Snapshot(st, orders)))) == st
    ensures BelievedLength(f, Log(f, Snapshot(st, orders))) == |Log(f, Snapshot(st, orders))|
  {
    BelievedLog(f, Snapshot(st, orders));
    SnapshotReplays(st, orders);
  }

  lemma CompactionHolds(file: seq<byte>, st: State)
    requires IsCompaction(file, st) && Coherent(st)
    ensures Holds(file, st)
  {
    var orders :| Walks(orders, st)
      && AllGood(JournalFormat(), Snapshot(st, orders))
      && file == Log(JournalFormat(), Snapshot(st, orders));
    JournalFormatIsLawful();
    RecoveredSnapshot(JournalFormat(), st, orders);
    HoldsWhen(file, st);
  }

  /** However a compacted journal file that has been appended to since is cut, at
      whatever byte, no vote's frame comes back without the lock it was committed
      under. */
  lemma CutFileStaysLocked(history: seq<Entry>, orders: Orders, later: seq<Entry>, cut: nat)
    requires forall i :: 0 <= i < |history| ==> !history[i].Frame?
    requires forall i :: 0 <= i < |later| ==> !later[i].Frame?
    requires Walks(orders, ApplyAll(EMPTY, history))
    requires AllGood(JournalFormat(), Snapshot(ApplyAll(EMPTY, history), orders) + later)
    requires cut <= |Log(JournalFormat(), Snapshot(ApplyAll(EMPTY, history), orders) + later)|
    ensures var file := Log(JournalFormat(), Snapshot(ApplyAll(EMPTY, history), orders) + later);
            LockedBy(Recovered(file[..cut]), Votes(history + later))
  {
    var f, entries := JournalFormat(), Snapshot(ApplyAll(EMPTY, history), orders) + later;
    JournalFormatIsLawful();
    CutAnywhere(f, entries, cut);
    CutLogStaysLocked(history, orders, later, WholeBefore(f, entries, cut));
  }

  lemma HoldsIsCoherent(file: seq<byte>, st: State)
    requires Holds(file, st)
    ensures Coherent(st)
  {
    assert Kept(file) == |file|;
    RecoveredIsCoherent(file);
  }

  lemma ReopenedHolds(bytes: seq<byte>)
    ensures Holds(bytes[..Kept(bytes)], Recovered(bytes))
  {
    JournalFormatIsLawful();
    ReopeningChangesNothing(JournalFormat(), bytes);
    HoldsWhen(bytes[..Kept(bytes)], Recovered(bytes));
  }

  // ---- what the disk may do to one operation ----

  /** A failed append leaves `left` bytes of its record behind. */
  datatype Append = Synced | Torn(left: nat)

  /** What happens to the append, and whether a compaction it triggers works. */
  datatype Io = Io(append: Append, compacts: bool) {
    predicate LeavesNothing() {
      append.Torn? ==> append.left == 0
    }
  }

  function Written(record: seq<byte>, append: Append): seq<byte> {
    match append
    case Synced => record
    case Torn(left) => record[..Min(left, |record|)]
  }

  /** The operation has a record to write and could not make it durable. */
  predicate FailsToPersist(st: State, op: Op, append: Append) {
    EntryFor(st, op).Some? && !(append.Synced? && Encodable(EntryFor(st, op).value))
  }

  /** What an operation leaves and answers on this disk: the in-memory journal's
      result, or no change at all. */
  function Outcome(st: State, op: Op, append: Append): (State, Reply) {
    if FailsToPersist(st, op, append) then
      (st, if op.Acknowledge? then Changed(false) else Refused(NotDurable))
    else Perform(st, op)
  }

  // ---- the sweep ----

  /** The sequences whose frames have expired. */
  function ExpiredAt(st: State, now: u64): set<u64> {
    set s: u64 | s in st.pending && Expired(st.pending[s], now)
  }

  /** An order in which a sweep goes through them. */
  ghost predicate SweepOrder(st: State, now: u64, walk: seq<u64>) {
    (forall s :: s in walk <==> s in ExpiredAt(st, now))
    && forall i, j :: 0 <= i < j < |walk| ==> walk[i] != walk[j]
  }

  /** Those of a walk whose retirement did not fail, in order. */
  function Gone(walk: seq<u64>, failing: set<u64>): (gone: seq<u64>)
    ensures forall s :: s in gone <==> s in walk && s !in failing
  {
    if walk == [] then []
    else
      var last := walk[|walk| - 1];
      Gone(walk[..|walk| - 1], failing) + if last in failing then [] else [last]
  }

  function Retiring(st: State, gone: seq<u64>): State {
    st.(pending := st.pending - (set s | s in gone))
  }

  /** The file once these retirements were appended to it, one by one. */
  function WithRetired(file: seq<byte>, gone: seq<u64>): seq<byte> {
    if gone == [] then file
    else WithRetired(file, gone[..|gone| - 1]) + Record(Retired(gone[|gone| - 1]))
  }

  lemma RetiringOneMore(st: State, gone: seq<u64>, s: u64)
    ensures Retiring(st, gone + [s]) == Apply(Retiring(st, gone), Retired(s))
  {
    assert st.pending - (set x | x in gone + [s]) == st.pending - (set x | x in gone) - {s};
  }

  lemma WithRetiredOneMore(file: seq<byte>, gone: seq<u64>, s: u64)
    ensures WithRetired(file, gone + [s]) == WithRetired(file, gone) + Record(Retired(s))
  {
    assert (gone + [s])[..|gone|] == gone;
  }

  lemma RetiringNothing(st: State)
    ensures Retiring(st, []) == st
  {
    assert st.pending - {} == st.pending;
  }

  lemma OneMoreRetired(file: seq<byte>, st: State, s: u64)
    requires Holds(file, st)
    ensures Holds(file + Record(Retired(s)), Apply(st, Retired(s)))
  {
    SmallRecordsEncode(Retired(s));
    AppendHolds(file, st, Retired(s));
  }

  /** However many retirements were appended, the file holds the state without
      exactly those frames. */
  lemma {:induction false} WithRetiredHolds(file: seq<byte>, st: State, gone: seq<u64>)
    requires Holds(file, st)
    ensures Holds(WithRetired(file, gone), Retiring(st, gone))
  {
    if gone == [] {
      RetiringNothing(st);
    } else {
      var before, last := gone[..|gone| - 1], gone[|gone| - 1];
      WithRetiredHolds(file, st, before);
      OneMoreRetired(WithRetired(file, before), Retiring(st, before), last);
      assert gone == before + [last];
      RetiringOneMore(st, before, last);
      WithRetiredOneMore(file, before, last);
    }
  }

  lemma GoneOneMore(walk: seq<u64>, failing: set<u64>, s: u64)
    ensures Gone(walk + [s], failing) == Gone(walk, failing) + if s in failing then [] else [s]
  {
    assert (walk + [s])[..|walk|] == walk;
  }

  /** A sweep without a failure is the in-memory journal's. */
  lemma WholeSweepIsDropExpired(st: State, now: u64, gone: seq<u64>)
    requires forall s :: s in gone <==> s in ExpiredAt(st, now)
    ensures Retiring(st, gone) == Journal.DropExpired(st, now)
  {
    assert Retiring(st, gone).pending == Journal.DropExpired(st, now).pending;
  }

  lemma SweepLeaves(st: State, now: u64, walk: seq<u64>, failing: set<u64>)
    requires SweepOrder(st, now, walk)
    ensures forall s :: s in Retiring(st, Gone(walk, failing)).pending <==>
      s in st.pending && (Expired(st.pending[s], now) ==> s in failing)
    ensures failing == {} ==> Retiring(st, Gone(walk, failing)) == Journal.DropExpired(st, now)
  {
    if failing == {} {
      WholeSweepIsDropExpired(st, now, Gone(walk, failing));
    }
  }

  /** The file a finished sweep may leave: its retirements added, or the
      compaction they set off. */
  ghost predicate SweepAfter(before: seq<byte>, st: State, gone: seq<u64>, after: seq<byte>) {
    after == WithRetired(before, gone) || IsCompaction(after, Retiring(st, gone))
  }

  // ---- walking a collection ----

  method Walk<T(==)>(s: set<T>) returns (order: seq<T>)
    ensures forall x :: x in order <==> x in s
    ensures forall i, j :: 0 <= i < j < |order| ==> order[i] != order[j]
  {
    order := [];
    var left := s;
    while left != {}
      invariant left <= s
      invariant forall x :: x in order <==> x in s && x !in left
      invariant forall i, j :: 0 <= i < j < |order| ==> order[i] != order[j]
      decreases left
    {
      var x :| x in left;
      left := left - {x};
      order := order + [x];
    }
  }

  /** `length || payload || checksum`, unless the reader would not believe it. */
  method Encode(e: Entry) returns (record: Option<seq<byte>>)
    ensures record == if Encodable(e) then Some(Record(e)) else None
  {
    var payload := EncodeEntry(e);
    if |payload| > MAX_RECORD_BYTES {
      return None;
    }
    return Some(Framed(payload, Crc.ChecksumBytes(Crc.Crc32(payload))));
  }

  /** `f` writes the journal's records. */
  ghost predicate WritesJournal(f: Format<Entry>) {
    forall e {:trigger Record(e)} :: f.write(e) == Record(e) && f.good(e) == Encodable(e)
  }

  method EncodeFor(ghost f: Format<Entry>, e: Entry) returns (record: Option<seq<byte>>)
    requires WritesJournal(f)
    ensures record == if f.good(e) then Some(f.write(e)) else None
  {
    record := Encode(e);
    assert f.write(e) == Record(e);
  }

  /** The first `i` records, written out. */
  ghost predicate WrittenOut(f: Format<Entry>, entries: seq<Entry>, i: nat, written: seq<byte>) {
    i <= |entries| && written == Log(f, entries[..i])
  }

  lemma NothingWritten(f: Format<Entry>, entries: seq<Entry>)
    ensures WrittenOut(f, entries, 0, [])
  {
  }

  lemma OneMoreWritten(f: Format<Entry>, entries: seq<Entry>, i: nat, written: seq<byte>)
    requires i < |entries| && WrittenOut(f, entries, i, written)
    ensures WrittenOut(f, entries, i + 1, written + f.write(entries[i]))
  {
    assert written == Log(f, entries[..i]);
    assert entries[..i + 1] == entries[..i] + [entries[i]];
    LogSplit(f, entries[..i], [entries[i]]);
    LogCons(f, entries[i], []);
    assert [entries[i]] == [entries[i]] + [];
    assert Log(f, []) == [];
  }

  lemma AllWritten(f: Format<Entry>, entries: seq<Entry>, written: seq<byte>)
    requires WrittenOut(f, entries, |entries|, written)
    ensures written == Log(f, entries)
  {
    assert entries[..|entries|] == entries;
  }

  /** The whole replacement file, unless a record in it is too long. */
  method EncodeAll(ghost f: Format<Entry>, entries: seq<Entry>) returns (file: Option<seq<byte>>)
    requires WritesJournal(f)
    ensures file.Some? <==> AllGood(f, entries)
    ensures file.Some? ==> file.value == Log(f, entries)
  {
    var written: seq<byte> := [];
    NothingWritten(f, entries);
    for i := 0 to |entries|
      invariant forall k :: 0 <= k < i ==> f.good(entries[k])
      invariant WrittenOut(f, entries, i, written)
    {
      var record := EncodeFor(f, entries[i]);
      if record == None {
        assert !f.good(entries[i]);
        return None;
      }
      OneMoreWritten(f, entries, i, written);
      written := written + record.value;
    }
    AllWritten(f, entries, written);
    return Some(written);
  }

  method GatherSeen(seen: map<u16, u64>, order: seq<u16>) returns (entries: seq<Entry>)
    requires forall k :: k in order ==> k in seen
    ensures entries == SeenRecords(seen, order)
  {
    entries := [];
    for i := 0 to |order|
      invariant entries + SeenRecords(seen, order[i..]) == SeenRecords(seen, order)
    {
      assert order[i..][1..] == order[i + 1..];
      entries := entries + [Seen(order[i], seen[order[i]])];
    }
  }

  method GatherLocks(order: seq<text>) returns (entries: seq<Entry>)
    ensures entries == LockRecords(order)
  {
    entries := [];
    for i := 0 to |order|
      invariant entries + LockRecords(order[i..]) == LockRecords(order)
    {
      assert order[i..][1..] == order[i + 1..];
      entries := entries + [Lock(order[i])];
    }
  }

  method GatherFrames(pending: map<u64, OutgoingFrame>, order: seq<u64>)
    returns (entries: seq<Entry>)
    requires forall s :: s in order ==> s in pending
    ensures entries == FrameRecords(pending, order)
  {
    entries := [];
    for i := 0 to |order|
      invariant entries + FrameRecords(pending, order[i..]) == FrameRecords(pending, order)
    {
      assert order[i..][1..] == order[i + 1..];
      var frame := pending[order[i]];
      entries := entries + [Frame(frame.sequence, frame.bytes, frame.expiresAt)];
    }
  }

  method GatherWitnessed(witnessed: map<text, seq<byte>>, order: seq<text>)
    returns (entries: seq<Entry>)
    requires forall a :: a in order ==> a in witnessed
    ensures entries == WitnessedRecords(witnessed, order)
  {
    entries := [];
    for i := 0 to |order|
      invariant entries + WitnessedRecords(witnessed, order[i..])
             == WitnessedRecords(witnessed, order)
    {
      assert order[i..][1..] == order[i + 1..];
      entries := entries + [Witnessed(order[i], witnessed[order[i]])];
    }
  }

  /** The records compaction writes, gathered from the live state. */
  method Gather(st: State) returns (entries: seq<Entry>, ghost orders: Orders)
    ensures Walks(orders, st) && entries == Snapshot(st, orders)
  {
    var senders := Walk(st.seen.Keys);
    var keys := Walk(st.locks);
    var sequences := Walk(st.pending.Keys);
    var authors := Walk(st.witnessed.Keys);
    orders := Orders(senders, keys, sequences, authors);
    entries := [Sequence(st.nextSequence)];
    if st.epoch.Some? {
      entries := entries + [Epoch(st.epoch.value)];
    }
    var seen := GatherSeen(st.seen, senders);
    var locks := GatherLocks(keys);
    var frames := GatherFrames(st.pending, sequences);
    var witnessed := GatherWitnessed(st.witnessed, authors);
    entries := entries + seen + locks + (frames + witnessed);
  }

  // ---- the journal ----

  class LogJournal {
    /** What is durable. */
    var file: seq<byte>
    var state: State
    var bytesOnDisk: nat

    /** The live state is exactly what the file would replay to. */
    ghost predicate Valid()
      reads this
    {
      Holds(file, state) && bytesOnDisk == |file|
    }

    /** Open whatever is on disk: the unreadable tail is cut off. */
    constructor Open(bytes: seq<byte>)
      ensures Valid()
      ensures file == bytes[..Kept(bytes)] && state == Recovered(bytes)
    {
      var st, at := Replay(bytes);
      file := bytes[..at];
      state := st;
      bytesOnDisk := at;
      new;
      ReopenedHolds(bytes);
    }

    method TryAppend(entry: Entry, append: Append) returns (ok: bool)
      modifies this`file, this`bytesOnDisk
      ensures ok == (Encodable(entry) && append.Synced?)
      ensures file == if Encodable(entry) then old(file) + Written(Record(entry), append)
                      else old(file)
      ensures bytesOnDisk == old(bytesOnDisk) + if ok then |Record(entry)| else 0
    {
      var record := Encode(entry);
      if record == None {
        return false;
      }
      file := file + Written(record.value, append);
      if append.Torn? {
        return false;
      }
      bytesOnDisk := bytesOnDisk + |record.value|;
      return true;
    }

    /** Write one record and make it durable; the live state is the caller's. */
    method Persist(entry: Entry, append: Append) returns (ok: bool)
      requires Valid() && (append.Torn? ==> append.left == 0)
      modifies this`file, this`bytesOnDisk
      ensures ok == (Encodable(entry) && append.Synced?)
      ensures bytesOnDisk == |file|
      ensures ok ==> file == old(file) + Record(entry) && Holds(file, Apply(state, entry))
      ensures !ok ==> file == old(file)
    {
      ok := TryAppend(entry, append);
      if ok {
        AppendHolds(old(file), state, entry);
      } else {
        assert Encodable(entry) ==> Record(entry)[..0] == [];
        assert file == old(file);
      }
    }

    /** Replace the log by one that holds only live state. The replacement is
        written beside it and renamed over it, so either all of it or nothing
        of it takes effect. */
    method Compact(succeeds: bool) returns (ok: bool)
      requires Valid()
      modifies this`file, this`bytesOnDisk
      ensures Valid()
      ensures if ok then IsCompaction(file, state) else file == old(file)
    {
      ghost var f := JournalFormat();
      var entries, orders := Gather(state);
      var written := EncodeAll(f, entries);
      if written == None || !succeeds {
        return false;
      }
      HoldsIsCoherent(file, state);
      file := written.value;
      bytesOnDisk := |written.value|;
      assert IsCompaction(file, state);
      CompactionHolds(file, state);
      return true;
    }

    method CompactIfLarge(succeeds: bool)
      requires Valid()
      modifies this`file, this`bytesOnDisk
      ensures Valid()
      ensures file == old(file) || IsCompaction(file, state)
    {
      if bytesOnDisk <= COMPACT_THRESHOLD_BYTES {
        return;
      }
      var _ := Compact(succeeds);
    }

    /** Make a record durable, then take it into the live state, then compact if
        the file has grown large. */
    method Store(entry: Entry, next: State, io: Io) returns (ok: bool)
      requires Valid() && io.LeavesNothing() && next == Apply(state, entry)
      modifies this
      ensures Valid()
      ensures ok == (Encodable(entry) && io.append.Synced?)
      ensures ok ==> state == next && (file == old(file) + Record(entry) || IsCompaction(file, next))
      ensures !ok ==> state == old(state) && file == old(file)
    {
      ok := Persist(entry, io.append);
      if ok {
        state := next;
        CompactIfLarge(io.compacts);
      }
    }

    method CommitVote(subject: Subject, voter: text, frame: OutgoingFrame, io: Io)
      returns (reply: Reply)
      requires Valid() && io.LeavesNothing()
      modifies this
      ensures Valid()
      ensures (state, reply) == Outcome(old(state), Journal.CommitVote(subject, voter, frame), io.append)
      ensures FileAfter(old(file), old(state), Journal.CommitVote(subject, voter, frame), reply, file)
    {
      var key := LockKey.Key(subject, voter);
      if key in state.locks {
        return Refused(AlreadyVoted);
      }
      RecordMeansOperation(state, Journal.CommitVote(subject, voter, frame));
      var ok := Store(Vote(key, frame.sequence, frame.bytes, frame.expiresAt), state.(
        locks := state.locks + {key},
        nextSequence := Max(state.nextSequence, SaturatingAdd(frame.sequence, 1)),
        pending := state.pending[frame.sequence := frame]), io);
      return if ok then Done else Refused(NotDurable);
    }

    predicate HasVoted(subject: Subject, voter: text)
      reads this
    {
      LockKey.Key(subject, voter) in state.locks
    }

    method ReserveSequence(io: Io) returns (reply: Reply)
      requires Valid() && io.LeavesNothing()
      modifies this
      ensures Valid()
      ensures (state, reply) == Outcome(old(state), Journal.ReserveSequence, io.append)
      ensures FileAfter(old(file), old(state), Journal.ReserveSequence, reply, file)
    {
      var reserved := state.nextSequence;
      var next := SaturatingAdd(reserved, 1);
      RecordMeansOperation(state, Journal.ReserveSequence);
      var ok := Store(Sequence(next), state.(nextSequence := next), io);
      return if ok then Reserved(reserved) else Refused(NotDurable);
    }

    method Acknowledge(sequence: u64, io: Io) returns (reply: Reply)
      requires Valid() && io.LeavesNothing()
      modifies this
      ensures Valid()
      ensures (state, reply) == Outcome(old(state), Journal.Acknowledge(sequence), io.append)
      ensures FileAfter(old(file), old(state), Journal.Acknowledge(sequence), reply, file)
    {
      if sequence !in state.pending {
        assert state.pending - {sequence} == state.pending;
        return Changed(false);
      }
      var ok := Store(Retired(sequence), state.(pending := state.pending - {sequence}), io);
      return Changed(ok);
    }

    /** Retire one frame, unless that cannot be made durable. */
    method Retire(sequence: u64, fails: bool)
      requires Valid()
      modifies this
      ensures Valid()
      ensures state == if fails then old(state) else Apply(old(state), Retired(sequence))
      ensures file == if fails then old(file) else old(file) + Record(Retired(sequence))
    {
      SmallRecordsEncode(Retired(sequence));
      var ok := Persist(Retired(sequence), if fails then Torn(0) else Synced);
      if ok {
        state := state.(pending := state.pending - {sequence});
      }
    }

    /** Retire the frame if it can be, in the middle of a sweep. */
    method SweepOne(ghost before: seq<byte>, ghost st: State, ghost walk: seq<u64>, sequence: u64,
                    failing: set<u64>)
      requires Valid() && file == WithRetired(before, Gone(walk, failing))
      requires state == Retiring(st, Gone(walk, failing))
      modifies this
      ensures Valid() && file == WithRetired(before, Gone(walk + [sequence], failing))
      ensures state == Retiring(st, Gone(walk + [sequence], failing))
    {
      ghost var gone := Gone(walk, failing);
      GoneOneMore(walk, failing, sequence);
      if sequence !in failing {
        RetiringOneMore(st, gone, sequence);
        WithRetiredOneMore(before, gone, sequence);
      }
      Retire(sequence, sequence in failing);
      assert gone + [] == gone;
    }

    /** Retire these frames one after the other. */
    method SweepAll(walk: seq<u64>, failing: set<u64>)
      requires Valid()
      modifies this
      ensures Valid() && file == WithRetired(old(file), Gone(walk, failing))
      ensures state == Retiring(old(state), Gone(walk, failing))
    {
      RetiringNothing(state);
      for i := 0 to |walk|
        invariant Valid() && file == WithRetired(old(file), Gone(walk[..i], failing))
        invariant state == Retiring(old(state), Gone(walk[..i], failing))
      {
        SweepOne(old(file), old(state), walk[..i], walk[i], failing);
        assert walk[..i + 1] == walk[..i] + [walk[i]];
      }
      assert walk[..|walk|] == walk;
    }

    /** Retire every frame whose validity has passed, one record a frame; one
        that could not be retired durably stays pending. */
    method DropExpired(now: u64, failing: set<u64>, compacts: bool) returns (ghost walk: seq<u64>)
      requires Valid()
      modifies this
      ensures Valid()
      ensures SweepOrder(old(state), now, walk)
      ensures state == Retiring(old(state), Gone(walk, failing))
      ensures SweepAfter(old(file), old(state), Gone(walk, failing), file)
      ensures forall s :: s in state.pending <==>
        s in old(state.pending) && (Expired(old(state.pending)[s], now) ==> s in failing)
      ensures failing == {} ==> state == Journal.DropExpired(old(state), now)
    {
      var expired := Walk(ExpiredAt(state, now));
      walk := expired;
      SweepLeaves(state, now, walk, failing);
      SweepAll(expired, failing);
      CompactIfLarge(compacts);
    }

    method Witness(author: text, received: seq<byte>, io: Io) returns (reply: Reply)
      requires Valid() && io.LeavesNothing()
      modifies this
      ensures Valid()
      ensures (state, reply) == Outcome(old(state), Journal.Witness(author, received), io.append)
      ensures FileAfter(old(file), old(state), Journal.Witness(author, received), reply, file)
    {
      if author in state.witnessed {
        return Done;
      }
      var ok := Store(Witnessed(author, received),
                      state.(witnessed := state.witnessed[author := received]), io);
      return if ok then Done else Refused(NotDurable);
    }

    method EnterEpoch(epoch: u16, io: Io) returns (reply: Reply)
      requires Valid() && io.LeavesNothing()
      modifies this
      ensures Valid()
      ensures (state, reply) == Outcome(old(state), Journal.EnterEpoch(epoch), io.append)
      ensures FileAfter(old(file), old(state), Journal.EnterEpoch(epoch), reply, file)
    {
      if state.epoch.Some? && state.epoch.value >= epoch {
        return Done;
      }
      var ok := Store(Epoch(epoch), state.(seen := map[], epoch := Some(epoch)), io);
      return if ok then Done else Refused(NotDurable);
    }

    method MarkSeen(sender: u16, sequence: u64, io: Io) returns (reply: Reply)
      requires Valid() && io.LeavesNothing()
      modifies this
      ensures Valid()
      ensures (state, reply) == Outcome(old(state), Journal.MarkSeen(sender, sequence), io.append)
      ensures FileAfter(old(file), old(state), Journal.MarkSeen(sender, sequence), reply, file)
    {
      RecordMeansOperation(state, Journal.MarkSeen(sender, sequence));
      if sender in state.seen && state.seen[sender] >= sequence {
        return Done;
      }
      var ok := Store(Seen(sender, sequence), state.(seen := state.seen[sender := sequence]), io);
      return if ok then Done else Refused(NotDurable);
    }
  }

  /** Counters never fail for being too long: only the disk can refuse them. */
  lemma SmallRecordsEncode(e: Entry)
    requires e.Sequence? || e.Seen? || e.Epoch? || e.Retired?
    ensures Encodable(e)
  {
    Ranges();
    VarintLength(Variant(e), 5, 15);
    match e
    case Sequence(next) => VarintLength(next, 10, 1);
    case Seen(sender, sequence) =>
      VarintLength(sender, 3, 3);
      VarintLength(sequence, 10, 1);
    case Epoch(epoch) => VarintLength(epoch, 3, 3);
    case Retired(sequence) => VarintLength(sequence, 10, 1);
  }

  /** The file an operation may leave: untouched, its record added, or the
      compaction that the added record set off. */
  ghost predicate FileAfter(
    before: seq<byte>, st: State, op: Op, reply: Reply, after: seq<byte>)
  {
    match EntryFor(st, op)
    case None => after == before
    case Some(e) =>
      if reply == Refused(NotDurable) || (op.Acknowledge? && reply == Changed(false)) then
        after == before
      else
        Encodable(e)
        && (after == before + Record(e) || IsCompaction(after, Perform(st, op).0))
  }
}
