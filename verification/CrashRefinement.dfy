/** Whole runs of the durable journal, crashes included, against the journal
    held in memory. */
module CrashRefinement {
  import opened Basics
  import opened Postcard
  import opened Journal
  import opened LogFormat
  import opened LogJournal
  import LockKey

  /** How one operation ended: it answered, or the process died. A death may
      leave any prefix of the record in flight, and, once the record is whole,
      the old file or its finished replacement. */
  datatype Fate = Returned(reply: Reply) | Crashed(cut: nat)

  /** How a sweep ended: it went through, or the process died while appending
      the retirement of frame number `at` of its walk, or, past the last one,
      while compacting. */
  datatype SweepFate = Finished | Died(at: nat, cut: nat)

  /** What the node does with its journal, and the file it goes on with,
      reopened after a crash: an operation, with whether its record reached the
      disk whole, or a sweep of the expired frames in some order, some of whose
      appends failed. */
  datatype Step =
    | Operated(op: Op, fate: Fate, took: bool, disk: seq<byte>)
    | Swept(now: u64, walk: seq<u64>, failing: set<u64>, end: SweepFate, disk: seq<byte>)

  function Reopened(bytes: seq<byte>): seq<byte> {
    bytes[..Kept(bytes)]
  }

  predicate Failure(op: Op, reply: Reply) {
    reply == Refused(NotDurable) || (op.Acknowledge? && reply == Changed(false))
  }

  ghost predicate OperationAllowed(
    before: seq<byte>, st: State, op: Op, fate: Fate, took: bool, disk: seq<byte>)
  {
    match (EntryFor(st, op), fate)
    case (None, Returned(reply)) => took && disk == before && reply == Perform(st, op).1
    case (None, Crashed(_)) => took && disk == Reopened(before)
    case (Some(e), Returned(reply)) =>
      FileAfter(before, st, op, reply, disk)
      && took == !Failure(op, reply)
      && (took ==> reply == Perform(st, op).1)
    case (Some(e), Crashed(cut)) =>
      if Encodable(e) && cut >= |Record(e)| then
        took && (disk == Reopened(before + Record(e))
                 || exists file :: IsCompaction(file, Perform(st, op).0) && disk == Reopened(file))
      else
        !took && disk == Reopened(before + if Encodable(e) then Record(e)[..cut] else [])
  }

  /** The retirements of a sweep that reached the disk whole, in order. */
  function GoneBy(walk: seq<u64>, failing: set<u64>, end: SweepFate): (gone: seq<u64>)
    ensures forall s :: s in gone ==> s in walk
  {
    match end
    case Finished => Gone(walk, failing)
    case Died(at, cut) =>
      if at >= |walk| then Gone(walk, failing)
      else Gone(walk[..at], failing) + if cut >= |Record(Retired(walk[at]))| then [walk[at]] else []
  }

  /** What is in the file when a sweep dies at `at`, `cut` bytes into a record. */
  function DiedWith(
    before: seq<byte>, walk: seq<u64>, failing: set<u64>, at: nat, cut: nat): seq<byte>
    requires at < |walk|
  {
    WithRetired(before, Gone(walk[..at], failing)) + Written(Record(Retired(walk[at])), Torn(cut))
  }

  ghost predicate SweepAllowed(
    before: seq<byte>, st: State, now: u64, walk: seq<u64>, failing: set<u64>, end: SweepFate,
    disk: seq<byte>)
  {
    SweepOrder(st, now, walk)
    && match end
       case Finished => SweepAfter(before, st, Gone(walk, failing), disk)
       case Died(at, cut) =>
         if at < |walk| then disk == Reopened(DiedWith(before, walk, failing, at, cut))
         else exists file :: SweepAfter(before, st, Gone(walk, failing), file) && disk == Reopened(file)
  }

  ghost predicate Allowed(before: seq<byte>, st: State, s: Step) {
    match s
    case Operated(op, fate, took, disk) => OperationAllowed(before, st, op, fate, took, disk)
    case Swept(now, walk, failing, end, disk) => SweepAllowed(before, st, now, walk, failing, end, disk)
  }

  function After(st: State, s: Step): State {
    match s
    case Operated(op, _, took, _) => if took then Perform(st, op).0 else st
    case Swept(_, walk, failing, end, _) => Retiring(st, GoneBy(walk, failing, end))
  }

  ghost predicate AllowedRun(disk: seq<byte>, st: State, steps: seq<Step>)
    decreases |steps|
  {
    steps == []
    || (Allowed(disk, st, steps[0]) && AllowedRun(steps[0].disk, After(st, steps[0]), steps[1..]))
  }

  /** The operations of the in-memory journal a step amounts to: its own if it
      took effect, and for a sweep the acknowledgement of every frame whose
      retirement reached the disk. */
  function Effects(s: Step): seq<Op> {
    match s
    case Operated(op, _, took, _) => if took then [op] else []
    case Swept(_, walk, failing, end, _) => Acknowledgements(GoneBy(walk, failing, end))
  }

  function Acknowledgements(gone: seq<u64>): seq<Op> {
    seq(|gone|, i requires 0 <= i < |gone| => Acknowledge(gone[i]))
  }

  /** The operations that took effect, in order. */
  function Took(steps: seq<Step>): seq<Op> {
    if steps == [] then [] else Effects(steps[0]) + Took(steps[1..])
  }

  /** The in-memory journal run on a list of operations. */
  function MemoryRun(st: State, ops: seq<Op>): State
    decreases |ops|
  {
    if ops == [] then st else MemoryRun(Perform(st, ops[0]).0, ops[1..])
  }

  function Last(disk: seq<byte>, steps: seq<Step>): seq<byte> {
    if steps == [] then disk else steps[|steps| - 1].disk
  }

  // ---- one operation ----

  lemma ReopenedWhole(file: seq<byte>, st: State)
    requires Holds(file, st)
    ensures Reopened(file) == file
  {
    HoldsMeans(file, st);
  }

  lemma TornReopens(before: seq<byte>, st: State, e: Entry, cut: nat)
    requires Holds(before, st) && Encodable(e) && cut < |Record(e)|
    ensures Reopened(before + Record(e)[..cut]) == before
  {
    TornAppendRecovers(before, st, e, cut);
  }

  lemma CrashHolds(
    before: seq<byte>, st: State, op: Op, e: Entry, cut: nat, took: bool, disk: seq<byte>)
    requires Holds(before, st) && OperationAllowed(before, st, op, Crashed(cut), took, disk)
    requires EntryFor(st, op) == Some(e)
    ensures Holds(disk, if took then Perform(st, op).0 else st)
  {
    RecordMeansOperation(st, op);
    if Encodable(e) {
      AppendHolds(before, st, e);
      ReopenedWhole(before + Record(e), Apply(st, e));
      if took {
        if disk != Reopened(before + Record(e)) {
          var file :| IsCompaction(file, Perform(st, op).0) && disk == Reopened(file);
          HoldsIsCoherent(before + Record(e), Apply(st, e));
          CompactionHolds(file, Perform(st, op).0);
          ReopenedWhole(file, Perform(st, op).0);
        }
      } else {
        TornReopens(before, st, e, cut);
      }
    } else {
      assert before + [] == before;
      ReopenedWhole(before, st);
    }
  }

  /** Whatever becomes of one operation, the file the node goes on with holds
      the state from just before it or from just after it, and an operation
      that returned without a failure is in it. */
  lemma OneOperation(
    before: seq<byte>, st: State, op: Op, fate: Fate, took: bool, disk: seq<byte>)
    requires Holds(before, st) && OperationAllowed(before, st, op, fate, took, disk)
    ensures Holds(disk, if took then Perform(st, op).0 else st)
    ensures fate.Returned? && !Failure(op, fate.reply) ==>
      took && fate.reply == Perform(st, op).1
  {
    RecordMeansOperation(st, op);
    match (EntryFor(st, op), fate)
    case (None, Returned(reply)) =>
    case (None, Crashed(_)) => ReopenedWhole(before, st);
    case (Some(e), Returned(reply)) =>
      if took {
        AppendHolds(before, st, e);
        if disk != before + Record(e) {
          HoldsIsCoherent(before + Record(e), Apply(st, e));
          CompactionHolds(disk, Perform(st, op).0);
        }
      }
    case (Some(e), Crashed(cut)) => CrashHolds(before, st, op, e, cut, took, disk);
  }

  // ---- one sweep ----

  lemma SweepAfterHolds(before: seq<byte>, st: State, gone: seq<u64>, after: seq<byte>)
    requires Holds(before, st) && SweepAfter(before, st, gone, after)
    ensures Holds(after, Retiring(st, gone))
  {
    WithRetiredHolds(before, st, gone);
    if after != WithRetired(before, gone) {
      HoldsIsCoherent(WithRetired(before, gone), Retiring(st, gone));
      CompactionHolds(after, Retiring(st, gone));
    }
  }

  lemma DiedHolds(
    before: seq<byte>, st: State, walk: seq<u64>, failing: set<u64>, at: nat, cut: nat)
    requires Holds(before, st) && at < |walk|
    ensures Holds(Reopened(DiedWith(before, walk, failing, at, cut)),
                  Retiring(st, GoneBy(walk, failing, Died(at, cut))))
  {
    var gone, s := Gone(walk[..at], failing), walk[at];
    var file, record := WithRetired(before, gone), Record(Retired(s));
    WithRetiredHolds(before, st, gone);
    SmallRecordsEncode(Retired(s));
    if cut >= |record| {
      assert record[..|record|] == record;
      AppendHolds(file, Retiring(st, gone), Retired(s));
      ReopenedWhole(file + record, Apply(Retiring(st, gone), Retired(s)));
      RetiringOneMore(st, gone, s);
    } else {
      TornReopens(file, Retiring(st, gone), Retired(s), cut);
      assert gone + [] == gone;
    }
  }

  /** Whatever becomes of a sweep, the file the node goes on with holds the state
      without exactly the frames whose retirement reached the disk, and these had
      expired. A sweep that went through without a failure is the in-memory
      journal's. */
  lemma OneSweep(
    before: seq<byte>, st: State, now: u64, walk: seq<u64>, failing: set<u64>, end: SweepFate,
    disk: seq<byte>)
    requires Holds(before, st) && SweepAllowed(before, st, now, walk, failing, end, disk)
    ensures Holds(disk, Retiring(st, GoneBy(walk, failing, end)))
    ensures forall s :: s in GoneBy(walk, failing, end) ==> s in ExpiredAt(st, now)
    ensures end == Finished && failing == {} ==>
      Retiring(st, GoneBy(walk, failing, end)) == Journal.DropExpired(st, now)
  {
    match end
    case Finished =>
      SweepAfterHolds(before, st, Gone(walk, failing), disk);
      if failing == {} {
        WholeSweepIsDropExpired(st, now, Gone(walk, failing));
      }
    case Died(at, cut) =>
      if at < |walk| {
        DiedHolds(before, st, walk, failing, at, cut);
      } else {
        var gone := Gone(walk, failing);
        var file :| SweepAfter(before, st, gone, file) && disk == Reopened(file);
        SweepAfterHolds(before, st, gone, file);
        ReopenedWhole(file, Retiring(st, gone));
      }
  }

  // ---- when a sweep is all or nothing ----

  ghost predicate SweepOf(before: seq<byte>, st: State, now: u64, s: Step) {
    s.Swept? && s.now == now && Allowed(before, st, s)
  }

  /** The file holds the state from just before the sweep, or from just after. */
  ghost predicate AllOrNothing(st: State, now: u64, disk: seq<byte>) {
    Holds(disk, st) || Holds(disk, Journal.DropExpired(st, now))
  }

  /** No two frames have expired. */
  ghost predicate AtMostOneExpired(st: State, now: u64) {
    forall s, t :: s in ExpiredAt(st, now) && t in ExpiredAt(st, now) ==> s == t
  }

  lemma HoldsOne(file: seq<byte>, a: State, b: State)
    requires Holds(file, a) && Holds(file, b)
    ensures a == b
  {
    HoldsMeans(file, a);
    HoldsMeans(file, b);
  }

  lemma OneExpiredIsAtomic(before: seq<byte>, st: State, now: u64, s: Step)
    requires Holds(before, st) && AtMostOneExpired(st, now) && SweepOf(before, st, now, s)
    ensures AllOrNothing(st, now, s.disk)
  {
    OneSweep(before, st, now, s.walk, s.failing, s.end, s.disk);
    var gone := GoneBy(s.walk, s.failing, s.end);
    if gone == [] {
      RetiringNothing(st);
    } else {
      assert gone[0] in gone;
      WholeSweepIsDropExpired(st, now, gone);
    }
  }

  lemma {:induction false} Enumerate(s: set<u64>) returns (order: seq<u64>)
    ensures forall x :: x in order <==> x in s
    ensures forall i, j :: 0 <= i < j < |order| ==> order[i] != order[j]
    decreases |s|
  {
    if s == {} {
      order := [];
    } else {
      var x :| x in s;
      var rest := Enumerate(s - {x});
      order := rest + [x];
    }
  }

  lemma OneGoneIsNeither(st: State, now: u64, first: u64, other: u64)
    requires first != other && first in ExpiredAt(st, now) && other in ExpiredAt(st, now)
    ensures Retiring(st, [first]) != st && Retiring(st, [first]) != Journal.DropExpired(st, now)
  {
    var left := Retiring(st, [first]);
    assert first in [first];
    assert first in st.pending && first !in left.pending;
    assert other in left.pending && other !in Journal.DropExpired(st, now).pending;
  }

  lemma HoldsNeither(disk: seq<byte>, st: State, now: u64, left: State)
    requires Holds(disk, left) && left != st && left != Journal.DropExpired(st, now)
    ensures !AllOrNothing(st, now, disk)
  {
    if Holds(disk, st) {
      HoldsOne(disk, st, left);
    }
    if Holds(disk, Journal.DropExpired(st, now)) {
      HoldsOne(disk, Journal.DropExpired(st, now), left);
    }
  }

  /** A sweep that dies once its first retirement is whole on the disk. */
  function DiesAfterOne(before: seq<byte>, now: u64, walk: seq<u64>, cut: nat): Step
    requires walk != []
  {
    Swept(now, walk, {}, Died(0, cut), Reopened(DiedWith(before, walk, {}, 0, cut)))
  }

  lemma GoneAfterOne(walk: seq<u64>, cut: nat)
    requires walk != [] && cut == |Record(Retired(walk[0]))|
    ensures GoneBy(walk, {}, Died(0, cut)) == [walk[0]]
  {
    assert walk[..0] == [];
  }

  lemma DiesAllowed(before: seq<byte>, st: State, now: u64, walk: seq<u64>, cut: nat)
    requires walk != [] && SweepOrder(st, now, walk)
    ensures SweepOf(before, st, now, DiesAfterOne(before, now, walk, cut))
  {
  }

  /** That leaves a file that is neither, as soon as two frames have expired. */
  lemma TwoExpiredIsNot(before: seq<byte>, st: State, now: u64, a: u64, b: u64) returns (s: Step)
    requires Holds(before, st) && a != b && a in ExpiredAt(st, now) && b in ExpiredAt(st, now)
    ensures SweepOf(before, st, now, s) && s.failing == {} && s.end.Died?
    ensures !AllOrNothing(st, now, s.disk)
  {
    var walk := Enumerate(ExpiredAt(st, now));
    assert a in walk && b in walk;
    var first, cut := walk[0], |Record(Retired(walk[0]))|;
    s := DiesAfterOne(before, now, walk, cut);
    DiesAllowed(before, st, now, walk, cut);
    DiedHolds(before, st, walk, {}, 0, cut);
    GoneAfterOne(walk, cut);
    OneGoneIsNeither(st, now, first, if first == a then b else a);
    HoldsNeither(s.disk, st, now, Retiring(st, [first]));
  }

  /** A sweep is one record a frame. Wherever it fails or dies it leaves the
      state from just before it or from just after it exactly when no two
      pending frames have expired. */
  lemma SweepIsAtomicExactly(before: seq<byte>, st: State, now: u64)
    requires Holds(before, st)
    ensures (forall s :: SweepOf(before, st, now, s) ==> AllOrNothing(st, now, s.disk))
       <==> AtMostOneExpired(st, now)
  {
    if AtMostOneExpired(st, now) {
      forall s | SweepOf(before, st, now, s)
        ensures AllOrNothing(st, now, s.disk)
      {
        OneExpiredIsAtomic(before, st, now, s);
      }
    } else {
      var a, b :| a in ExpiredAt(st, now) && b in ExpiredAt(st, now) && a != b;
      var s := TwoExpiredIsNot(before, st, now, a, b);
      assert SweepOf(before, st, now, s) && !AllOrNothing(st, now, s.disk);
    }
  }

  // ---- whole runs ----

  lemma OneStep(before: seq<byte>, st: State, s: Step)
    requires Holds(before, st) && Allowed(before, st, s)
    ensures Holds(s.disk, After(st, s))
  {
    match s
    case Operated(op, fate, took, disk) => OneOperation(before, st, op, fate, took, disk);
    case Swept(now, walk, failing, end, disk) => OneSweep(before, st, now, walk, failing, end, disk);
  }

  lemma {:induction false} MemoryRunSplit(st: State, a: seq<Op>, b: seq<Op>)
    ensures MemoryRun(st, a + b) == MemoryRun(MemoryRun(st, a), b)
    decreases |a|
  {
    if a == [] {
      assert a + b == b;
    } else {
      assert (a + b)[1..] == a[1..] + b;
      MemoryRunSplit(Perform(st, a[0]).0, a[1..], b);
    }
  }

  /** Retiring frames one by one on the disk is acknowledging them in memory. */
  lemma {:induction false} AcknowledgingRetires(st: State, gone: seq<u64>)
    ensures MemoryRun(st, Acknowledgements(gone)) == Retiring(st, gone)
  {
    if gone == [] {
      RetiringNothing(st);
    } else {
      var before, last := gone[..|gone| - 1], gone[|gone| - 1];
      AcknowledgingRetires(st, before);
      assert gone == before + [last];
      assert Acknowledgements(gone) == Acknowledgements(before) + [Acknowledge(last)];
      MemoryRunSplit(st, Acknowledgements(before), [Acknowledge(last)]);
      RetiringOneMore(st, before, last);
      assert [Acknowledge(last)][1..] == [];
    }
  }

  lemma EffectsReach(st: State, s: Step)
    ensures MemoryRun(st, Effects(s)) == After(st, s)
  {
    match s
    case Operated(op, _, took, _) =>
      if took {
        assert [op][1..] == [];
      }
    case Swept(_, walk, failing, end, _) => AcknowledgingRetires(st, GoneBy(walk, failing, end));
  }

  /** After any run of operations and sweeps, failures, compactions, crashes and
      reopens, the file holds exactly what the in-memory journal reaches on the
      operations that took effect. */
  lemma {:induction false} RunRefinesMemory(disk: seq<byte>, st: State, steps: seq<Step>)
    requires Holds(disk, st) && AllowedRun(disk, st, steps)
    ensures Holds(Last(disk, steps), MemoryRun(st, Took(steps)))
    decreases |steps|
  {
    if steps != [] {
      var s, rest := steps[0], steps[1..];
      OneStep(disk, st, s);
      RunRefinesMemory(s.disk, After(st, s), rest);
      assert Last(disk, steps) == Last(s.disk, rest);
      EffectsReach(st, s);
      MemoryRunSplit(st, Effects(s), Took(rest));
    }
  }

  /** An empty disk holds the empty journal. */
  lemma NothingHoldsNothing()
    ensures Holds([], EMPTY)
  {
    ReopenedHolds([]);
    var f := JournalFormat();
    assert f.read([]) == ReadRecord([]) == None;
    assert Recovered([]) == EMPTY;
  }

  /** A node that starts on an empty disk: whatever run it takes from there, its
      file holds what the in-memory journal reaches from nothing. */
  lemma RunFromNothing(steps: seq<Step>)
    requires AllowedRun([], EMPTY, steps)
    ensures Recovered(Last([], steps)) == MemoryRun(EMPTY, Took(steps))
    ensures Kept(Last([], steps)) == |Last([], steps)|
  {
    NothingHoldsNothing();
    RunRefinesMemory([], EMPTY, steps);
    HoldsMeans(Last([], steps), MemoryRun(EMPTY, Took(steps)));
  }

  /** The state a run has reached just before step `i`. */
  function At(st: State, steps: seq<Step>, i: nat): State
    requires i <= |steps|
    decreases i
  {
    if i == 0 then st else At(After(st, steps[0]), steps[1..], i - 1)
  }

  lemma {:induction false} AtNext(st: State, steps: seq<Step>, i: nat)
    requires i < |steps|
    ensures At(st, steps, i + 1) == After(At(st, steps, i), steps[i])
    decreases i
  {
    if i > 0 {
      AtNext(After(st, steps[0]), steps[1..], i - 1);
      assert At(st, steps, i + 1) == At(After(st, steps[0]), steps[1..], i);
    }
  }

  lemma {:induction false} AllowedAt(disk: seq<byte>, st: State, steps: seq<Step>, i: nat)
    requires AllowedRun(disk, st, steps) && i < |steps|
    ensures Allowed(if i == 0 then disk else steps[i - 1].disk, At(st, steps, i), steps[i])
    decreases i
  {
    if i > 0 {
      AllowedAt(steps[0].disk, After(st, steps[0]), steps[1..], i - 1);
    }
  }

  /** Locks and the counter only ever move forward. */
  lemma StepMovesForward(st: State, s: Step)
    ensures After(st, s).locks >= st.locks
    ensures After(st, s).nextSequence >= st.nextSequence
  {
  }

  lemma MovesOne(st: State, steps: seq<Step>, i: nat)
    requires i < |steps|
    ensures At(st, steps, i + 1).locks >= At(st, steps, i).locks
    ensures At(st, steps, i + 1).nextSequence >= At(st, steps, i).nextSequence
  {
    AtNext(st, steps, i);
    StepMovesForward(At(st, steps, i), steps[i]);
  }

  lemma {:induction false} MovesForward(st: State, steps: seq<Step>, i: nat, j: nat)
    requires i <= j <= |steps|
    ensures At(st, steps, j).locks >= At(st, steps, i).locks
    ensures At(st, steps, j).nextSequence >= At(st, steps, i).nextSequence
    decreases j
  {
    if i < j {
      MovesForward(st, steps, i, j - 1);
      MovesOne(st, steps, j - 1);
    }
  }

  lemma ReservationMeans(disk: seq<byte>, st: State, s: Step)
    requires s.Operated? && s.op == ReserveSequence && s.fate.Returned? && s.fate.reply.Reserved?
    requires Allowed(disk, st, s)
    ensures s.fate.reply.sequence == st.nextSequence
    ensures After(st, s).nextSequence == SaturatingAdd(s.fate.reply.sequence, 1)
  {
    assert EntryFor(st, s.op).Some? && s.took;
  }

  lemma ReservationAt(disk: seq<byte>, st: State, steps: seq<Step>, i: nat)
    requires AllowedRun(disk, st, steps) && i < |steps|
    requires steps[i].Operated? && steps[i].op == ReserveSequence
    requires steps[i].fate.Returned? && steps[i].fate.reply.Reserved?
    ensures steps[i].fate.reply.sequence == At(st, steps, i).nextSequence
    ensures At(st, steps, i + 1).nextSequence == SaturatingAdd(steps[i].fate.reply.sequence, 1)
  {
    AllowedAt(disk, st, steps, i);
    AtNext(st, steps, i);
    ReservationMeans(if i == 0 then disk else steps[i - 1].disk, At(st, steps, i), steps[i]);
  }

  /** No run, however often it crashes, hands the same sequence out twice below
      the counter's ceiling. */
  lemma NeverReservedTwice(disk: seq<byte>, st: State, steps: seq<Step>, i: nat, j: nat)
    requires AllowedRun(disk, st, steps) && i < j < |steps|
    requires steps[i].Operated? && steps[j].Operated?
    requires steps[i].op == steps[j].op == ReserveSequence
    requires steps[i].fate.Returned? && steps[i].fate.reply.Reserved?
    requires steps[j].fate.Returned? && steps[j].fate.reply.Reserved?
    ensures steps[i].fate.reply.sequence < steps[j].fate.reply.sequence
         || steps[i].fate.reply.sequence == steps[j].fate.reply.sequence == U64_MAX
  {
    ReservationAt(disk, st, steps, i);
    ReservationAt(disk, st, steps, j);
    MovesForward(st, steps, i + 1, j);
  }

  function VoteKey(op: Op): text
    requires op.CommitVote?
  {
    LockKey.Key(op.subject, op.voter)
  }

  lemma AcceptedMeansLocked(disk: seq<byte>, st: State, s: Step)
    requires Allowed(disk, st, s) && s.Operated? && s.op.CommitVote? && s.fate == Returned(Done)
    ensures VoteKey(s.op) in After(st, s).locks
  {
  }

  lemma LockedMeansRefused(disk: seq<byte>, st: State, s: Step)
    requires Allowed(disk, st, s) && s.Operated? && s.op.CommitVote? && VoteKey(s.op) in st.locks
    ensures s.fate.Returned? ==> s.fate.reply == Refused(AlreadyVoted)
  {
  }

  lemma AcceptedAt(disk: seq<byte>, st: State, steps: seq<Step>, i: nat)
    requires AllowedRun(disk, st, steps) && i < |steps|
    requires steps[i].Operated? && steps[i].op.CommitVote? && steps[i].fate == Returned(Done)
    ensures VoteKey(steps[i].op) in At(st, steps, i + 1).locks
  {
    AllowedAt(disk, st, steps, i);
    AtNext(st, steps, i);
    AcceptedMeansLocked(if i == 0 then disk else steps[i - 1].disk, At(st, steps, i), steps[i]);
  }

  lemma RefusedAt(disk: seq<byte>, st: State, steps: seq<Step>, i: nat)
    requires AllowedRun(disk, st, steps) && i < |steps|
    requires steps[i].Operated? && steps[i].op.CommitVote? && VoteKey(steps[i].op) in At(st, steps, i).locks
    ensures steps[i].fate.Returned? ==> steps[i].fate.reply == Refused(AlreadyVoted)
  {
    AllowedAt(disk, st, steps, i);
    LockedMeansRefused(if i == 0 then disk else steps[i - 1].disk, At(st, steps, i), steps[i]);
  }

  /** No run, however often it crashes, accepts two votes under one lock. */
  lemma NeverVotedTwice(disk: seq<byte>, st: State, steps: seq<Step>, i: nat, j: nat)
    requires AllowedRun(disk, st, steps) && i < j < |steps|
    requires steps[i].Operated? && steps[i].op.CommitVote? && steps[i].fate == Returned(Done)
    requires steps[j].Operated? && steps[j].op.CommitVote? && VoteKey(steps[i].op) == VoteKey(steps[j].op)
    ensures steps[j].fate.Returned? ==> steps[j].fate.reply == Refused(AlreadyVoted)
  {
    AcceptedAt(disk, st, steps, i);
    MovesForward(st, steps, i + 1, j);
    RefusedAt(disk, st, steps, j);
  }
}
