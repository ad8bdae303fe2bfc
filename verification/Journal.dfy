/** The safety journal: what it records, what state the records add up to, and
    what each of its operations does. */
module Journal {
  import opened Basics
  import opened Postcard
  import opened Contracts
  import opened LockKey

  datatype OutgoingFrame = OutgoingFrame(bytes: seq<byte>, sequence: u64, expiresAt: Option<u64>)

  datatype JournalError = AlreadyVoted | NotDurable

  /** One durable fact. `Lock` and `Frame` are written by compaction only. */
  datatype Entry =
    | Vote(key: text, sequence: u64, bytes: seq<byte>, expiresAt: Option<u64>)
    | Sequence(next: u64)
    | Seen(sender: u16, sequence: u64)
    | Epoch(epoch: u16)
    | Retired(sequence: u64)
    | Witnessed(author: text, bytes: seq<byte>)
    | Lock(key: text)
    | Frame(sequence: u64, bytes: seq<byte>, expiresAt: Option<u64>)

  /** What must survive a restart. */
  datatype State = State(
    epoch: Option<u16>,
    seen: map<u16, u64>,
    locks: set<text>,
    pending: map<u64, OutgoingFrame>,
    nextSequence: u64,
    witnessed: map<text, seq<byte>>)

  const EMPTY: State := State(None, map[], {}, map[], 0, map[])

  // ---- what a record means ----

  function AddFrame(st: State, sequence: u64, bytes: seq<byte>, expiresAt: Option<u64>): State {
    st.(pending := st.pending[sequence := OutgoingFrame(bytes, sequence, expiresAt)],
        nextSequence := Max(st.nextSequence, SaturatingAdd(sequence, 1)))
  }

  function Apply(st: State, entry: Entry): State {
    match entry
    case Vote(key, sequence, bytes, expiresAt) =>
      AddFrame(st.(locks := st.locks + {key}), sequence, bytes, expiresAt)
    case Lock(key) => st.(locks := st.locks + {key})
    case Frame(sequence, bytes, expiresAt) => AddFrame(st, sequence, bytes, expiresAt)
    case Sequence(next) => st.(nextSequence := Max(st.nextSequence, next))
    case Epoch(epoch) =>
      st.(seen := if st.epoch == None || epoch > st.epoch.value then map[] else st.seen,
          epoch := Some(if st.epoch == None then epoch else Max(st.epoch.value, epoch)))
    case Seen(sender, sequence) =>
      var held := if sender in st.seen then st.seen[sender] else 0;
      st.(seen := st.seen[sender := Max(held, sequence)])
    case Retired(sequence) => st.(pending := st.pending - {sequence})
    case Witnessed(author, bytes) =>
      if author in st.witnessed then st else st.(witnessed := st.witnessed[author := bytes])
  }

  function ApplyAll(st: State, entries: seq<Entry>): State
    decreases |entries|
  {
    if entries == [] then st else ApplyAll(Apply(st, entries[0]), entries[1..])
  }

  lemma {:induction false} ApplyAllSplit(st: State, a: seq<Entry>, b: seq<Entry>)
    ensures ApplyAll(st, a + b) == ApplyAll(ApplyAll(st, a), b)
    decreases |a|
  {
    if a == [] {
      assert a + b == b;
    } else {
      assert (a + b)[1..] == a[1..] + b;
      ApplyAllSplit(Apply(st, a[0]), a[1..], b);
    }
  }

  /** Every pending frame is filed under its own sequence, and the counter has
      moved past it. */
  ghost predicate Coherent(st: State) {
    forall s :: s in st.pending ==>
      st.pending[s].sequence == s && SaturatingAdd(s, 1) <= st.nextSequence
  }

  lemma ApplyCoherent(st: State, entry: Entry)
    requires Coherent(st)
    ensures Coherent(Apply(st, entry))
    ensures Apply(st, entry).nextSequence >= st.nextSequence
    ensures Apply(st, entry).locks >= st.locks
  {
    match entry
    case Vote(key, sequence, bytes, expiresAt) =>
    case Frame(sequence, bytes, expiresAt) =>
    case Retired(sequence) =>
    case _ => assert Apply(st, entry).pending == st.pending;
  }

  /** Whatever records a log holds, and in whatever order: the counter stands
      past every pending sequence, and neither it nor a lock is ever undone. */
  lemma {:induction false} ApplyAllCoherent(st: State, entries: seq<Entry>)
    requires Coherent(st)
    ensures Coherent(ApplyAll(st, entries))
    ensures ApplyAll(st, entries).nextSequence >= st.nextSequence
    ensures ApplyAll(st, entries).locks >= st.locks
    decreases |entries|
  {
    if entries != [] {
      ApplyCoherent(st, entries[0]);
      ApplyAllCoherent(Apply(st, entries[0]), entries[1..]);
    }
  }

  // ---- the operations ----

  datatype Op =
    | CommitVote(subject: Subject, voter: text, frame: OutgoingFrame)
    | ReserveSequence
    | Acknowledge(sequence: u64)
    | Witness(author: text, received: seq<byte>)
    | EnterEpoch(epoch: u16)
    | MarkSeen(sender: u16, sequence: u64)

  datatype Reply =
    | Done
    | Reserved(sequence: u64)
    | Changed(changed: bool)
    | Refused(error: JournalError)

  /** What an operation leaves in memory and answers when nothing can fail:
      the in-memory journal. */
  function Perform(st: State, op: Op): (State, Reply) {
    match op
    case CommitVote(subject, voter, frame) =>
      var key := Key(subject, voter);
      if key in st.locks then (st, Refused(AlreadyVoted))
      else
        (st.(locks := st.locks + {key},
             nextSequence := Max(st.nextSequence, SaturatingAdd(frame.sequence, 1)),
             pending := st.pending[frame.sequence := frame]), Done)
    case ReserveSequence =>
      (st.(nextSequence := SaturatingAdd(st.nextSequence, 1)), Reserved(st.nextSequence))
    case Acknowledge(sequence) =>
      (st.(pending := st.pending - {sequence}), Changed(sequence in st.pending))
    case Witness(author, received) =>
      (if author in st.witnessed then st else st.(witnessed := st.witnessed[author := received]), Done)
    case EnterEpoch(epoch) =>
      if st.epoch.Some? && st.epoch.value >= epoch then (st, Done)
      else (st.(seen := map[], epoch := Some(epoch)), Done)
    case MarkSeen(sender, sequence) =>
      var held := if sender in st.seen then st.seen[sender] else 0;
      (st.(seen := st.seen[sender := Max(held, sequence)]), Done)
  }

  /** The record an operation has to make durable first, if it writes one. */
  function EntryFor(st: State, op: Op): Option<Entry> {
    match op
    case CommitVote(subject, voter, frame) =>
      var key := Key(subject, voter);
      if key in st.locks then None
      else Some(Vote(key, frame.sequence, frame.bytes, frame.expiresAt))
    case ReserveSequence => Some(Sequence(SaturatingAdd(st.nextSequence, 1)))
    case Acknowledge(sequence) => if sequence in st.pending then Some(Retired(sequence)) else None
    case Witness(author, received) =>
      if author in st.witnessed then None else Some(Witnessed(author, received))
    case EnterEpoch(epoch) =>
      if st.epoch.Some? && st.epoch.value >= epoch then None else Some(Epoch(epoch))
    case MarkSeen(sender, sequence) =>
      if sender in st.seen && st.seen[sender] >= sequence then None
      else Some(Seen(sender, sequence))
  }

  /** The record says exactly what the operation did: replaying it gives the
      state the operation left in memory, and an operation that writes nothing
      changes nothing. */
  lemma RecordMeansOperation(st: State, op: Op)
    ensures match EntryFor(st, op)
            case Some(entry) => Apply(st, entry) == Perform(st, op).0
            case None => st == Perform(st, op).0
  {
    match op
    case CommitVote(subject, voter, frame) =>
      var key := Key(subject, voter);
      if key !in st.locks {
        assert Apply(st, EntryFor(st, op).value).pending == Perform(st, op).0.pending;
      }
    case Acknowledge(sequence) =>
      if sequence !in st.pending {
        assert st.pending - {sequence} == st.pending;
      }
    case MarkSeen(sender, sequence) =>
      if sender in st.seen && st.seen[sender] >= sequence {
        assert st.seen[sender := st.seen[sender]] == st.seen;
      }
    case _ =>
  }

  /** Frames whose validity has passed. */
  predicate Expired(frame: OutgoingFrame, now: u64) {
    frame.expiresAt.Some? && frame.expiresAt.value < now
  }

  /** `drop_expired` on the in-memory journal. */
  function DropExpired(st: State, now: u64): State {
    st.(pending := map s | s in st.pending && !Expired(st.pending[s], now) :: st.pending[s])
  }

  // ---- sequence numbers ----

  /** A reservation can be told from the next one exactly while the counter is
      below its ceiling. */
  lemma ReservationsDifferExactly(st: State)
    ensures var (after, first) := Perform(st, ReserveSequence);
            var (_, second) := Perform(after, ReserveSequence);
            first != second <==> st.nextSequence < U64_MAX
  {
  }


  // ---- epochs ----

  /** The journal has run under this epoch or a later one. */
  predicate HasRunUnder(st: State, epoch: u16) {
    st.epoch.Some? && st.epoch.value >= epoch
  }

  /** Entering a later epoch forgets whoever was seen and nothing else; entering
      any other changes nothing at all. Replaying its record does the same. */
  lemma EnteringForgetsExactly(st: State, epoch: u16)
    ensures var after := Perform(st, EnterEpoch(epoch)).0;
            after == Apply(st, Epoch(epoch))
            && after.seen == (if HasRunUnder(st, epoch) then st.seen else map[])
            && after.epoch.Some? && after.epoch.value >= epoch
            && after == st.(epoch := after.epoch, seen := after.seen)
            && (after.epoch == st.epoch || after.epoch == Some(epoch))
  {
  }

  // ---- expiry ----

  /** A frame is good up to and including the second it expires at, and one
      without an expiry for ever. */
  lemma ExpiresExactly(frame: OutgoingFrame, now: u64)
    ensures frame.expiresAt == None ==> !Expired(frame, now)
    ensures frame.expiresAt.Some? ==> !Expired(frame, frame.expiresAt.value)
    ensures frame.expiresAt.Some? && frame.expiresAt.value < U64_MAX ==>
      Expired(frame, frame.expiresAt.value + 1)
    ensures Expired(frame, now) ==> forall later: u64 :: now <= later ==> Expired(frame, later)
  {
  }
}
