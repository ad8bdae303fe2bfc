/** What the safety journal holds, told from the list of operations it went through:
    every part of its state read off the history alone. */
module JournalHistory {
  import opened Basics
  import opened Postcard
  import opened Contracts
  import opened Journal
  import opened LogFormat
  import opened CrashRefinement
  import LockKey

  // ---- what a history says ----

  predicate Commits(op: Op, key: text) {
    op.CommitVote? && LockKey.Key(op.subject, op.voter) == key
  }

  /** The operation here is a commitment, and the first under its lock. */
  ghost predicate Taken(ops: seq<Op>, i: nat) {
    i < |ops| && ops[i].CommitVote?
    && forall k :: 0 <= k < i ==> !Commits(ops[k], LockKey.Key(ops[i].subject, ops[i].voter))
  }

  /** The frame committed here is neither acknowledged nor replaced later on. */
  ghost predicate Outstanding(ops: seq<Op>, i: nat, s: u64) {
    forall k :: i < k < |ops| ==>
      ops[k] != Acknowledge(s) && !(Taken(ops, k) && ops[k].frame.sequence == s)
  }

  /** The operation here hands in this member's first frame. */
  ghost predicate FirstFrom(ops: seq<Op>, i: nat, author: text, received: seq<byte>) {
    i < |ops| && ops[i] == Witness(author, received)
    && forall k :: 0 <= k < i ==> !(ops[k].Witness? && ops[k].author == author)
  }

  /** The operation here enters an epoch above all those entered before. */
  ghost predicate Raises(ops: seq<Op>, i: nat) {
    i < |ops| && ops[i].EnterEpoch?
    && forall k :: 0 <= k < i && ops[k].EnterEpoch? ==> ops[k].epoch < ops[i].epoch
  }

  /** The number marked here, in the epoch the history ends in. */
  ghost predicate MarkedNow(ops: seq<Op>, i: nat, sender: u16, q: u64) {
    i < |ops| && ops[i] == MarkSeen(sender, q) && forall k: nat :: i < k < |ops| ==> !Raises(ops, k)
  }

  // ---- one operation more ----

  lemma RunSnoc(ops: seq<Op>)
    requires ops != []
    ensures MemoryRun(EMPTY, ops)
         == Perform(MemoryRun(EMPTY, ops[..|ops| - 1]), ops[|ops| - 1]).0
  {
    var last := ops[|ops| - 1];
    assert ops == ops[..|ops| - 1] + [last];
    MemoryRunSplit(EMPTY, ops[..|ops| - 1], [last]);
    assert [last][1..] == [];
  }

  lemma TakenPrefix(ops: seq<Op>, i: nat)
    requires ops != [] && i < |ops| - 1
    ensures Taken(ops, i) == Taken(ops[..|ops| - 1], i)
  {
  }

  lemma RaisesPrefix(ops: seq<Op>, i: nat)
    requires ops != [] && i < |ops| - 1
    ensures Raises(ops, i) == Raises(ops[..|ops| - 1], i)
  {
  }

  // ---- the locks ----

  ghost predicate AskedFor(ops: seq<Op>, key: text) {
    exists i :: 0 <= i < |ops| && Commits(ops[i], key)
  }

  lemma AskedSnoc(ops: seq<Op>, key: text)
    requires ops != []
    ensures AskedFor(ops, key)
       <==> AskedFor(ops[..|ops| - 1], key) || Commits(ops[|ops| - 1], key)
  {
    if AskedFor(ops[..|ops| - 1], key) {
      var i :| 0 <= i < |ops| - 1 && Commits(ops[..|ops| - 1][i], key);
      assert Commits(ops[i], key);
    }
  }

  lemma LocksAfter(st: State, op: Op, key: text)
    ensures key in Perform(st, op).0.locks <==> key in st.locks || Commits(op, key)
  {
  }

  /** A vote is locked exactly if a commitment under its lock was asked for. */
  lemma {:induction false} LocksTell(ops: seq<Op>, key: text)
    ensures key in MemoryRun(EMPTY, ops).locks <==> AskedFor(ops, key)
    decreases |ops|
  {
    if ops != [] {
      RunSnoc(ops);
      LocksTell(ops[..|ops| - 1], key);
      AskedSnoc(ops, key);
      LocksAfter(MemoryRun(EMPTY, ops[..|ops| - 1]), ops[|ops| - 1], key);
    }
  }

  /** A commitment is refused exactly if it is not the first under its lock. */
  lemma RefusedExactly(ops: seq<Op>, subject: Subject, voter: text, frame: OutgoingFrame)
    ensures var asked := ops + [CommitVote(subject, voter, frame)];
            Perform(MemoryRun(EMPTY, ops), CommitVote(subject, voter, frame)).1
            == if Taken(asked, |ops|) then Done else Refused(AlreadyVoted)
  {
    var key := LockKey.Key(subject, voter);
    var asked := ops + [CommitVote(subject, voter, frame)];
    LocksTell(ops, key);
    if !Taken(asked, |ops|) {
      var k :| 0 <= k < |ops| && Commits(asked[k], key);
      assert Commits(ops[k], key);
    } else {
      assert forall k :: 0 <= k < |ops| ==> asked[k] == ops[k];
    }
  }

  // ---- the outbox ----

  function PendingAt(st: State, s: u64): Option<OutgoingFrame> {
    if s in st.pending then Some(st.pending[s]) else None
  }

  /** What one operation does to one place of the outbox. */
  lemma PlaceAfter(st: State, op: Op, s: u64)
    ensures PendingAt(Perform(st, op).0, s)
         == if op.CommitVote? && LockKey.Key(op.subject, op.voter) !in st.locks
               && op.frame.sequence == s then Some(op.frame)
            else if op == Acknowledge(s) then None
            else PendingAt(st, s)
  {
  }

  ghost predicate Waits(ops: seq<Op>, s: u64, f: OutgoingFrame) {
    exists i: nat :: Taken(ops, i) && ops[i].frame == f && f.sequence == s && Outstanding(ops, i, s)
  }

  lemma LastTaken(ops: seq<Op>)
    requires ops != []
    ensures Taken(ops, |ops| - 1)
       <==> ops[|ops| - 1].CommitVote?
            && LockKey.Key(ops[|ops| - 1].subject, ops[|ops| - 1].voter)
               !in MemoryRun(EMPTY, ops[..|ops| - 1]).locks
  {
    if ops[|ops| - 1].CommitVote? {
      var op, front := ops[|ops| - 1], ops[..|ops| - 1];
      RefusedExactly(front, op.subject, op.voter, op.frame);
      assert front + [CommitVote(op.subject, op.voter, op.frame)] == ops;
    }
  }

  lemma WaitsBefore(ops: seq<Op>, i: nat, s: u64, f: OutgoingFrame)
    requires ops != [] && i < |ops| - 1 && ops[|ops| - 1] != Acknowledge(s)
    requires !(Taken(ops, |ops| - 1) && ops[|ops| - 1].frame.sequence == s)
    ensures Taken(ops, i) && Outstanding(ops, i, s)
       <==> Taken(ops[..|ops| - 1], i) && Outstanding(ops[..|ops| - 1], i, s)
  {
    TakenPrefix(ops, i);
    OutstandingPrefix(ops, i, s);
  }

  lemma WaitsSnoc(ops: seq<Op>, s: u64, f: OutgoingFrame)
    requires ops != []
    ensures Waits(ops, s, f)
       <==> if Taken(ops, |ops| - 1) && ops[|ops| - 1].frame.sequence == s
            then f == ops[|ops| - 1].frame
            else ops[|ops| - 1] != Acknowledge(s) && Waits(ops[..|ops| - 1], s, f)
  {
    var front, n := ops[..|ops| - 1], |ops| - 1;
    if Taken(ops, n) && ops[n].frame.sequence == s {
      assert Outstanding(ops, n, s);
    } else if ops[n] != Acknowledge(s) {
      if Waits(ops, s, f) {
        var i: nat :| Taken(ops, i) && ops[i].frame == f && f.sequence == s && Outstanding(ops, i, s);
        WaitsBefore(ops, i, s, f);
        assert front[i] == ops[i];
      }
      if Waits(front, s, f) {
        var i: nat :|
          Taken(front, i) && front[i].frame == f && f.sequence == s && Outstanding(front, i, s);
        WaitsBefore(ops, i, s, f);
        assert front[i] == ops[i];
      }
    }
  }

  lemma OutstandingPrefix(ops: seq<Op>, i: nat, s: u64)
    requires ops != [] && i < |ops| - 1
    ensures Outstanding(ops, i, s)
       <==> Outstanding(ops[..|ops| - 1], i, s) && ops[|ops| - 1] != Acknowledge(s)
            && !(Taken(ops, |ops| - 1) && ops[|ops| - 1].frame.sequence == s)
  {
    var n := |ops| - 1;
    forall k | i < k < n
      ensures Taken(ops, k) == Taken(ops[..n], k)
    {
      TakenPrefix(ops, k);
    }
    if Outstanding(ops, i, s) {
      forall k | i < k < n
        ensures ops[..n][k] != Acknowledge(s)
                && !(Taken(ops[..n], k) && ops[..n][k].frame.sequence == s)
      {
        assert ops[k] != Acknowledge(s) && !(Taken(ops, k) && ops[k].frame.sequence == s);
      }
    }
    if Outstanding(ops[..n], i, s) {
      forall k | i < k < n
        ensures ops[k] != Acknowledge(s) && !(Taken(ops, k) && ops[k].frame.sequence == s)
      {
        assert ops[..n][k] != Acknowledge(s)
               && !(Taken(ops[..n], k) && ops[..n][k].frame.sequence == s);
      }
    }
  }

  /** A frame waits in the outbox exactly if it was committed, and neither
      acknowledged nor replaced under its number since. */
  lemma {:induction false} OutboxTells(ops: seq<Op>, s: u64, f: OutgoingFrame)
    ensures PendingAt(MemoryRun(EMPTY, ops), s) == Some(f) <==> Waits(ops, s, f)
    decreases |ops|
  {
    if ops != [] {
      RunSnoc(ops);
      PlaceAfter(MemoryRun(EMPTY, ops[..|ops| - 1]), ops[|ops| - 1], s);
      LastTaken(ops);
      WaitsSnoc(ops, s, f);
      OutboxTells(ops[..|ops| - 1], s, f);
    }
  }

  // ---- the witnessed frames ----

  function HeldFor(st: State, author: text): Option<seq<byte>> {
    if author in st.witnessed then Some(st.witnessed[author]) else None
  }

  ghost predicate CameFirst(ops: seq<Op>, author: text, received: seq<byte>) {
    exists i: nat :: FirstFrom(ops, i, author, received)
  }

  ghost predicate NeverCame(ops: seq<Op>, author: text) {
    forall i :: 0 <= i < |ops| ==> !(ops[i].Witness? && ops[i].author == author)
  }

  lemma CameSnoc(ops: seq<Op>, author: text, received: seq<byte>)
    requires ops != []
    ensures CameFirst(ops, author, received)
       <==> CameFirst(ops[..|ops| - 1], author, received)
            || (NeverCame(ops[..|ops| - 1], author) && ops[|ops| - 1] == Witness(author, received))
    ensures NeverCame(ops, author)
       <==> NeverCame(ops[..|ops| - 1], author)
            && !(ops[|ops| - 1].Witness? && ops[|ops| - 1].author == author)
  {
    var n, front := |ops| - 1, ops[..|ops| - 1];
    assert forall k :: 0 <= k < n ==> front[k] == ops[k];
    if CameFirst(ops, author, received) {
      var i: nat :| FirstFrom(ops, i, author, received);
      if i < n {
        assert FirstFrom(front, i, author, received);
      }
    }
    if CameFirst(front, author, received) {
      var i: nat :| FirstFrom(front, i, author, received);
      assert FirstFrom(ops, i, author, received);
    }
    if NeverCame(front, author) && ops[n] == Witness(author, received) {
      assert FirstFrom(ops, n, author, received);
    }
  }

  lemma HeldAfter(st: State, op: Op, author: text)
    ensures HeldFor(Perform(st, op).0, author)
         == if HeldFor(st, author) == None && op.Witness? && op.author == author
            then Some(op.received) else HeldFor(st, author)
  {
  }

  /** What is held for a member is the first frame handed in for it. */
  lemma {:induction false} WitnessedTells(ops: seq<Op>, author: text, received: seq<byte>)
    ensures HeldFor(MemoryRun(EMPTY, ops), author) == Some(received)
       <==> CameFirst(ops, author, received)
    ensures HeldFor(MemoryRun(EMPTY, ops), author) == None <==> NeverCame(ops, author)
    decreases |ops|
  {
    if ops != [] {
      RunSnoc(ops);
      WitnessedTells(ops[..|ops| - 1], author, received);
      CameSnoc(ops, author, received);
      HeldAfter(MemoryRun(EMPTY, ops[..|ops| - 1]), ops[|ops| - 1], author);
    }
  }

  // ---- the epoch, and who was seen in it ----

  ghost predicate Entered(ops: seq<Op>, epoch: u16) {
    exists i :: 0 <= i < |ops| && Enters(ops[i], epoch)
  }

  predicate Enters(op: Op, epoch: u16) {
    op.EnterEpoch? && op.epoch >= epoch
  }

  lemma EnteredSnoc(ops: seq<Op>, epoch: u16)
    requires ops != []
    ensures Entered(ops, epoch)
       <==> Entered(ops[..|ops| - 1], epoch) || Enters(ops[|ops| - 1], epoch)
  {
    if Entered(ops[..|ops| - 1], epoch) {
      var i :| 0 <= i < |ops| - 1 && Enters(ops[..|ops| - 1][i], epoch);
      assert Enters(ops[i], epoch);
    }
  }

  lemma EpochAfter(st: State, op: Op, epoch: u16)
    ensures HasRunUnder(Perform(st, op).0, epoch) <==> HasRunUnder(st, epoch) || Enters(op, epoch)
  {
  }

  /** The journal's epoch is the highest ever entered. */
  lemma {:induction false} EpochTells(ops: seq<Op>, epoch: u16)
    ensures HasRunUnder(MemoryRun(EMPTY, ops), epoch) <==> Entered(ops, epoch)
    decreases |ops|
  {
    if ops != [] {
      RunSnoc(ops);
      EpochTells(ops[..|ops| - 1], epoch);
      EnteredSnoc(ops, epoch);
      EpochAfter(MemoryRun(EMPTY, ops[..|ops| - 1]), ops[|ops| - 1], epoch);
    }
  }

  lemma LastRaises(ops: seq<Op>)
    requires ops != []
    ensures Raises(ops, |ops| - 1)
       <==> ops[|ops| - 1].EnterEpoch?
            && !HasRunUnder(MemoryRun(EMPTY, ops[..|ops| - 1]), ops[|ops| - 1].epoch)
  {
    var n := |ops| - 1;
    if ops[n].EnterEpoch? {
      var front := ops[..n];
      EpochTells(front, ops[n].epoch);
      if Entered(front, ops[n].epoch) {
        var i :| 0 <= i < n && Enters(front[i], ops[n].epoch);
        assert ops[i].EnterEpoch? && ops[i].epoch >= ops[n].epoch;
      }
      if !Raises(ops, n) {
        var k :| 0 <= k < n && ops[k].EnterEpoch? && ops[k].epoch >= ops[n].epoch;
        assert Enters(front[k], ops[n].epoch);
      }
    }
  }

  /** Something this high was marked for the sender, and the journal remembers. */
  predicate SeenTo(st: State, sender: u16, q: u64) {
    sender in st.seen && st.seen[sender] >= q
  }

  predicate Marks(op: Op, sender: u16, q: u64) {
    op.MarkSeen? && op.sender == sender && op.sequence >= q
  }

  lemma SeenAfter(st: State, op: Op, sender: u16, q: u64)
    ensures SeenTo(Perform(st, op).0, sender, q)
       <==> !(op.EnterEpoch? && !HasRunUnder(st, op.epoch))
            && (SeenTo(st, sender, q) || Marks(op, sender, q))
  {
  }

  ghost predicate Told(ops: seq<Op>, sender: u16, q: u64) {
    exists i: nat, p: u64 :: MarkedNow(ops, i, sender, p) && p >= q
  }

  lemma MarkedPrefix(ops: seq<Op>, i: nat, sender: u16, p: u64)
    requires ops != [] && i < |ops| - 1
    ensures MarkedNow(ops, i, sender, p)
       <==> MarkedNow(ops[..|ops| - 1], i, sender, p) && !Raises(ops, |ops| - 1)
  {
    var n, front := |ops| - 1, ops[..|ops| - 1];
    forall k: nat | i < k < n
      ensures Raises(ops, k) == Raises(front, k)
    {
      RaisesPrefix(ops, k);
    }
    if MarkedNow(ops, i, sender, p) {
      assert !Raises(ops, n);
      assert forall k: nat :: i < k < n ==> !Raises(front, k);
    }
    if MarkedNow(front, i, sender, p) && !Raises(ops, n) {
      assert forall k: nat :: i < k < n ==> !Raises(ops, k);
    }
  }

  lemma ToldSnoc(ops: seq<Op>, sender: u16, q: u64)
    requires ops != []
    ensures Told(ops, sender, q)
       <==> !Raises(ops, |ops| - 1)
            && (Told(ops[..|ops| - 1], sender, q) || Marks(ops[|ops| - 1], sender, q))
  {
    var n, front := |ops| - 1, ops[..|ops| - 1];
    if Told(ops, sender, q) {
      var i: nat, p: u64 :| MarkedNow(ops, i, sender, p) && p >= q;
      if i < n {
        MarkedPrefix(ops, i, sender, p);
        assert MarkedNow(front, i, sender, p);
      }
    }
    if !Raises(ops, n) && Told(front, sender, q) {
      var i: nat, p: u64 :| MarkedNow(front, i, sender, p) && p >= q;
      MarkedPrefix(ops, i, sender, p);
      assert MarkedNow(ops, i, sender, p);
    }
    if Marks(ops[n], sender, q) {
      assert MarkedNow(ops, n, sender, ops[n].sequence);
    }
  }

  /** A sender was seen as far as this exactly if it was marked that far since the
      epoch was last raised. */
  lemma {:induction false} SeenTells(ops: seq<Op>, sender: u16, q: u64)
    ensures SeenTo(MemoryRun(EMPTY, ops), sender, q) <==> Told(ops, sender, q)
    decreases |ops|
  {
    if ops != [] {
      RunSnoc(ops);
      SeenAfter(MemoryRun(EMPTY, ops[..|ops| - 1]), ops[|ops| - 1], sender, q);
      LastRaises(ops);
      ToldSnoc(ops, sender, q);
      SeenTells(ops[..|ops| - 1], sender, q);
    }
  }

  // ---- the counter ----

  function Reservations(ops: seq<Op>): nat {
    if ops == [] then 0
    else Reservations(ops[..|ops| - 1]) + if ops[|ops| - 1] == ReserveSequence then 1 else 0
  }

  /** Every committed frame carries a number that had been reserved. */
  ghost predicate Reserved(ops: seq<Op>) {
    forall i :: 0 <= i < |ops| && ops[i].CommitVote? ==>
      ops[i].frame.sequence as int < Reservations(ops[..i])
  }

  lemma ReservedPrefix(ops: seq<Op>)
    requires ops != [] && Reserved(ops)
    ensures Reserved(ops[..|ops| - 1])
  {
    var front := ops[..|ops| - 1];
    forall i | 0 <= i < |front| && front[i].CommitVote?
      ensures front[i].frame.sequence as int < Reservations(front[..i])
    {
      assert front[..i] == ops[..i] && ops[i].CommitVote?;
    }
  }

  /** The counter counts the reservations, up to its ceiling. */
  lemma {:induction false} CounterTells(ops: seq<Op>)
    requires Reserved(ops)
    ensures MemoryRun(EMPTY, ops).nextSequence as int
         == if Reservations(ops) <= U64_MAX then Reservations(ops) else U64_MAX
    decreases |ops|
  {
    if ops != [] {
      RunSnoc(ops);
      ReservedPrefix(ops);
      CounterTells(ops[..|ops| - 1]);
    }
  }

  // ---- what reaches the disk ----

  /** Through failed writes, compactions, sweeps, deaths in the middle of any record
      and restarts: the file reads back as what the operations that took effect say,
      part by part. */
  lemma FileTells(
    steps: seq<Step>, key: text, s: u64, f: OutgoingFrame, author: text, received: seq<byte>,
    sender: u16, q: u64, epoch: u16)
    requires AllowedRun([], EMPTY, steps)
    ensures var st, ops := Recovered(Last([], steps)), Took(steps);
            (key in st.locks <==> AskedFor(ops, key))
            && (PendingAt(st, s) == Some(f) <==> Waits(ops, s, f))
            && (HeldFor(st, author) == Some(received) <==> CameFirst(ops, author, received))
            && (HasRunUnder(st, epoch) <==> Entered(ops, epoch))
            && (SeenTo(st, sender, q) <==> Told(ops, sender, q))
  {
    RunFromNothing(steps);
    LocksTell(Took(steps), key);
    OutboxTells(Took(steps), s, f);
    WitnessedTells(Took(steps), author, received);
    EpochTells(Took(steps), epoch);
    SeenTells(Took(steps), sender, q);
  }

  /** A record is written exactly when the state changes, but for a reservation at
      the counter's ceiling. */
  lemma WritesExactly(st: State, op: Op)
    ensures EntryFor(st, op).Some?
       <==> Perform(st, op).0 != st || (op == ReserveSequence && st.nextSequence == U64_MAX)
  {
    RecordMeansOperation(st, op);
    match op
    case CommitVote(subject, voter, frame) =>
      assert EntryFor(st, op).Some? ==> LockKey.Key(subject, voter) in Perform(st, op).0.locks;
    case Acknowledge(sequence) =>
      assert EntryFor(st, op).Some? ==> sequence !in Perform(st, op).0.pending;
    case Witness(author, received) =>
      assert EntryFor(st, op).Some? ==> author in Perform(st, op).0.witnessed;
    case MarkSeen(sender, sequence) =>
      assert EntryFor(st, op).Some? ==>
        sender in Perform(st, op).0.seen && Perform(st, op).0.seen[sender] >= sequence;
    case _ =>
  }

  /** The first frame under a name stays, the epoch does not fall, and what was seen
      is forgotten only when it rises. */
  ghost predicate Keeps(st: State, after: State) {
    (forall a :: a in st.witnessed ==> HeldFor(after, a) == Some(st.witnessed[a]))
    && (st.epoch.Some? ==> HasRunUnder(after, st.epoch.value))
    && (after.epoch == st.epoch ==> forall p :: p in st.seen ==> SeenTo(after, p, st.seen[p]))
  }

  lemma ApplyKeeps(st: State, entry: Entry)
    ensures Keeps(st, Apply(st, entry))
  {
  }

  lemma KeepsOn(a: State, b: State, c: State)
    requires Keeps(a, b) && Keeps(b, c)
    ensures Keeps(a, c)
  {
  }

  /** Whatever records a log holds, in whatever order, nothing it once said of whom
      it heard is undone. */
  lemma {:induction false} NothingIsUndone(st: State, entries: seq<Entry>)
    ensures Keeps(st, ApplyAll(st, entries))
    decreases |entries|
  {
    if entries != [] {
      var next := Apply(st, entries[0]);
      ApplyKeeps(st, entries[0]);
      NothingIsUndone(next, entries[1..]);
      KeepsOn(st, next, ApplyAll(next, entries[1..]));
    }
  }
}
