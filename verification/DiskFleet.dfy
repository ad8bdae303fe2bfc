/** The fleet down to the bytes on its disks: a process may die at any byte of
    any record it writes, and still every run is one of the fleet's. */
module DiskFleet {
  import opened Basics
  import opened Contracts
  import opened Journal
  import opened CompactFrame
  import opened Member
  import opened Fleet
  import opened FleetSafety
  import C = CrashRefinement
  import CaseMachine
  import R = Recount
  import Sealing
  import LogFormat
  import LogJournal

  /** A member: its journal's file, and the process, if it is up. */
  datatype Machine = Machine(file: seq<byte>, life: Option<Life>)

  /** The members, every byte string that was ever on the air, and every envelope
      honest members sealed, one that never left its process included. The last is
      history: no member reads it. */
  datatype Disks = Disks(
    machines: map<u16, Machine>, air: set<seq<byte>>, sealed: set<Envelope>)

  /** An act, and what became of each journal operation it performed. */
  datatype DiskStep = Injected(frame: seq<byte>) | Does(member: u16, act: Act, writes: seq<C.Step>)

  // ---- what an act writes ----

  /** The journal operations of keeping a frame that adds a vote to the case. */
  function Keeping(m: Mission, c: CaseMachine.CaseState, frame: seq<byte>, now: u64): seq<Op> {
    var learned := Admit(m, c, frame, now).1;
    if learned.binding.Some? && learned.binding.value as int < |m.ids|
    then [Witness(m.ids[learned.binding.value], frame)] else []
  }

  /** The journal operations of building a vote. */
  function Voting(m: Mission, i: u16, j: State, choice: Verdict, heard: eight, round: RoundId): seq<Op>
    requires i as int < |m.ids|
  {
    if HasVoted(m, i, j) then []
    else
      var e := EnvelopeOf(m, i, StageCode(BindingSupport), VerdictCode(choice), j.nextSequence,
                          heard, round);
      var frame := m.wire.frame(e);
      if |frame| > MAX_FRAME_BYTES then [ReserveSequence]
      else [ReserveSequence, CommitVote(m.subject, m.ids[i], OutgoingFrame(frame, j.nextSequence, None))]
  }

  /** The journal operations of an act, in order, as long as none fails. */
  function OpsOf(m: Mission, i: u16, n: Node, act: Act): seq<Op>
    requires i as int < |m.ids|
  {
    match n.life
    case None =>
      if act == Restart && !RolledBack(m, n.journal) then [EnterEpoch(m.epoch)] else []
    case Some(l) =>
      match act
      case Utter(stage, _, _, _, _) => if stage == StageCode(BindingSupport) then [] else [ReserveSequence]
      case Cast(choice, heard, round, _, _) =>
        if l.situation.phase == CaseMachine.Consulting then []
        else Voting(m, i, n.journal, choice, heard, round)
      case Receive(frame, now, _) => Keeping(m, l.situation, frame, now)
      case Drain(author, now, _) =>
        if l.situation.phase == CaseMachine.CollectingVotes && author in l.early
        then Keeping(m, l.situation, l.early[author], now) else []
      case Note(sender, sequence) => [MarkSeen(sender, sequence)]
      case _ => []
  }

  predicate Died(writes: seq<C.Step>) {
    writes != [] && writes[|writes| - 1].Operated? && writes[|writes| - 1].fate.Crashed?
  }

  predicate WentThrough(writes: seq<C.Step>, k: nat) {
    k < |writes| && writes[k].Operated? && writes[k].took
  }

  /** The operations go to the disk one after the other, until one fails, or the
      process dies in the middle of one. */
  ghost predicate Writes(m: Mission, i: u16, n: Node, act: Act, file: seq<byte>, writes: seq<C.Step>)
    requires i as int < |m.ids|
  {
    var ops := OpsOf(m, i, n, act);
    C.AllowedRun(file, n.journal, writes) && |writes| <= |ops|
    && (forall k :: 0 <= k < |writes| ==> writes[k].Operated? && writes[k].op == ops[k])
    && (forall k :: 0 <= k < |writes| - 1 ==> writes[k].fate.Returned? && writes[k].took)
    && (|writes| == |ops| || (writes != [] && (Died(writes) || !writes[|writes| - 1].took)))
  }

  /** The act with what the disk made of it. */
  function Settled(act: Act, writes: seq<C.Step>): Act {
    match act
    case Utter(stage, verdict, heard, round, _) =>
      Utter(stage, verdict, heard, round, WentThrough(writes, 0))
    case Cast(choice, heard, round, _, _) =>
      Cast(choice, heard, round, WentThrough(writes, 0), WentThrough(writes, 1))
    case Receive(frame, now, _) => Receive(frame, now, WentThrough(writes, 0))
    case Drain(author, now, _) => Drain(author, now, WentThrough(writes, 0))
    case _ => act
  }

  /** What the member does in the fleet's terms: the act, unless it came to
      nothing, and the crash, if there was one. */
  function ActsOf(act: Act, writes: seq<C.Step>): seq<Act> {
    (if (act.Note? || act == Restart) && !WentThrough(writes, 0) then [] else [Settled(act, writes)])
    + if Died(writes) then [Crash] else []
  }

  // ---- runs ----

  /** The member as the fleet sees it: its journal is what its file replays to. */
  function NodeOf(machine: Machine): Node {
    Node(LogFormat.Recovered(machine.file), machine.life)
  }

  ghost predicate DiskPermitted(s: Setup, d: Disks, step: DiskStep) {
    match step
    case Injected(frame) => Injectable(s, d.air, frame)
    case Does(i, act, writes) =>
      i in s.honest && i in d.machines && i as int < |s.mission.ids|
      && (act.Receive? ==> act.frame in d.air)
      && Writes(s.mission, i, NodeOf(d.machines[i]), act, d.machines[i].file, writes)
  }

  ghost function DiskNext(s: Setup, d: Disks, step: DiskStep): Disks
    requires DiskPermitted(s, d, step)
  {
    match step
    case Injected(frame) => d.(air := d.air + {frame})
    case Does(i, act, writes) =>
      var n, acts := NodeOf(d.machines[i]), ActsOf(act, writes);
      var after := Machine(C.Last(d.machines[i].file, writes), R.Acts(s.mission, i, n, acts).life);
      Disks(d.machines[i := after], d.air + SentBy(s.mission, i, n, acts),
            d.sealed + SealedBy(s.mission, i, n, acts))
  }

  ghost predicate DiskAllowed(s: Setup, d: Disks, steps: seq<DiskStep>)
    decreases |steps|
  {
    steps == [] || (DiskPermitted(s, d, steps[0]) && DiskAllowed(s, DiskNext(s, d, steps[0]), steps[1..]))
  }

  ghost function DiskRun(s: Setup, d: Disks, steps: seq<DiskStep>): Disks
    requires DiskAllowed(s, d, steps)
    decreases |steps|
  {
    if steps == [] then d else DiskRun(s, DiskNext(s, d, steps[0]), steps[1..])
  }

  /** Every byte of every file is believed, and the fleet is what the files and
      the processes say. */
  ghost predicate Shows(d: Disks, w: World) {
    w.nodes.Keys == d.machines.Keys && w.air == d.air && w.sealed == d.sealed
    && forall i :: i in d.machines ==>
         w.nodes[i].life == d.machines[i].life
         && LogJournal.Holds(d.machines[i].file, w.nodes[i].journal)
  }

  // ---- one act ----

  lemma CrashKeepsJournal(m: Mission, i: u16, n: Node)
    requires i as int < |m.ids|
    ensures Do(m, i, n, Crash).node.journal == n.journal && Do(m, i, n, Crash).sent == None
  {
  }

  /** A crash at the end leaves the journal. */
  lemma JournalOfActs(m: Mission, i: u16, n: Node, act: Act, writes: seq<C.Step>)
    requires i as int < |m.ids|
    ensures R.Acts(m, i, n, ActsOf(act, writes)).journal
         == if (act.Note? || act == Restart) && !WentThrough(writes, 0) then n.journal
            else Do(m, i, n, Settled(act, writes)).node.journal
  {
    var nothing: seq<Act> := [];
    var end := if Died(writes) then [Crash] else nothing;
    var up := Do(m, i, n, Settled(act, writes)).node;
    R.ActsInRow(m, i, n, Settled(act, writes), end);
    R.ActsInRow(m, i, up, Crash, []);
    R.ActsInRow(m, i, n, Crash, []);
    CrashKeepsJournal(m, i, up);
    CrashKeepsJournal(m, i, n);
    assert [Crash] + nothing == [Crash];
    assert nothing + end == end;
  }

  lemma TookNone(j: State)
    ensures C.MemoryRun(j, C.Took([])) == j
  {
  }

  lemma TookOne(j: State, w: C.Step)
    requires w.Operated?
    ensures C.MemoryRun(j, C.Took([w])) == if w.took then Perform(j, w.op).0 else j
  {
    assert [w][1..] == [];
    C.MemoryRunSplit(j, C.Effects(w), C.Took([]));
    C.EffectsReach(j, w);
  }

  lemma TookTwo(j: State, w: C.Step, x: C.Step)
    requires w.Operated? && x.Operated? && w.took
    ensures C.MemoryRun(j, C.Took([w, x]))
         == if x.took then Perform(Perform(j, w.op).0, x.op).0 else Perform(j, w.op).0
  {
    assert [w, x][1..] == [x];
    C.MemoryRunSplit(j, C.Effects(w), C.Took([x]));
    C.EffectsReach(j, w);
    TookOne(Perform(j, w.op).0, x);
  }

  /** What becomes of at most one operation. */
  lemma AtMostOne(m: Mission, i: u16, n: Node, act: Act, file: seq<byte>, writes: seq<C.Step>)
    requires i as int < |m.ids| && Writes(m, i, n, act, file, writes) && |OpsOf(m, i, n, act)| <= 1
    ensures C.MemoryRun(n.journal, C.Took(writes))
         == if WentThrough(writes, 0) then Perform(n.journal, OpsOf(m, i, n, act)[0]).0 else n.journal
  {
    if writes == [] {
      TookNone(n.journal);
    } else {
      assert writes == [writes[0]];
      TookOne(n.journal, writes[0]);
    }
  }

  lemma CastReaches(m: Mission, i: u16, n: Node, act: Act, file: seq<byte>, writes: seq<C.Step>)
    requires i as int < |m.ids| && Writes(m, i, n, act, file, writes) && act.Cast?
    requires |OpsOf(m, i, n, act)| == 2
    ensures C.MemoryRun(n.journal, C.Took(writes)) == Do(m, i, n, Settled(act, writes)).node.journal
  {
    if |writes| == 2 {
      assert writes == [writes[0], writes[1]];
      TookTwo(n.journal, writes[0], writes[1]);
    } else {
      assert writes == [writes[0]];
      TookOne(n.journal, writes[0]);
    }
  }

  /** The fleet's act leaves in memory what the disk's operations leave in the
      journal. */
  lemma ActReaches(m: Mission, i: u16, n: Node, act: Act, file: seq<byte>, writes: seq<C.Step>)
    requires i as int < |m.ids| && Writes(m, i, n, act, file, writes)
    ensures C.MemoryRun(n.journal, C.Took(writes)) == R.Acts(m, i, n, ActsOf(act, writes)).journal
  {
    JournalOfActs(m, i, n, act, writes);
    if |OpsOf(m, i, n, act)| == 2 {
      CastReaches(m, i, n, act, file, writes);
    } else {
      AtMostOne(m, i, n, act, file, writes);
    }
  }

  // ---- one step ----

  lemma NodeShown(d: Disks, w: World, i: u16)
    requires Shows(d, w) && i in d.machines
    ensures NodeOf(d.machines[i]) == w.nodes[i]
  {
    LogJournal.HoldsMeans(d.machines[i].file, w.nodes[i].journal);
  }

  lemma OnlyHeardFrames(act: Act, writes: seq<C.Step>, air: set<seq<byte>>)
    requires act.Receive? ==> act.frame in air
    ensures var acts := ActsOf(act, writes);
            forall k :: 0 <= k < |acts| && acts[k].Receive? ==> acts[k].frame in air
  {
  }

  /** What one member does with its disk, whether or not it lives through it, the
      fleet's model allows. */
  lemma DoesShows(s: Setup, d: Disks, w: World, step: DiskStep)
    requires Shows(d, w) && DiskPermitted(s, d, step) && step.Does?
    ensures var steps := Takes(step.member, ActsOf(step.act, step.writes));
            Allowed(s, w, steps) && Shows(DiskNext(s, d, step), Run(s, w, steps))
  {
    var i, writes := step.member, step.writes;
    var acts, file := ActsOf(step.act, writes), d.machines[i].file;
    NodeShown(d, w, i);
    OnlyHeardFrames(step.act, writes, d.air);
    TakesRun(s, w, i, acts);
    ActReaches(s.mission, i, w.nodes[i], step.act, file, writes);
    C.RunRefinesMemory(file, w.nodes[i].journal, writes);
  }

  lemma DiskStepShows(s: Setup, d: Disks, w: World, step: DiskStep) returns (steps: seq<Step>)
    requires Shows(d, w) && DiskPermitted(s, d, step)
    ensures Allowed(s, w, steps) && Shows(DiskNext(s, d, step), Run(s, w, steps))
  {
    match step
    case Injected(frame) =>
      steps := [Inject(frame)];
      assert steps[1..] == [];
    case Does(i, act, writes) =>
      steps := Takes(i, ActsOf(act, writes));
      DoesShows(s, d, w, step);
  }

  /** Every run on disks, with deaths at any byte of any write, is a run of the
      fleet: what the files replay to and what the processes hold is, at its end,
      what the fleet's members are. */
  lemma {:induction false} DiskRunIsFleetRun(s: Setup, d: Disks, w: World, steps: seq<DiskStep>)
    returns (run: seq<Step>)
    requires Shows(d, w) && DiskAllowed(s, d, steps)
    ensures Allowed(s, w, run) && Shows(DiskRun(s, d, steps), Run(s, w, run))
    decreases |steps|
  {
    if steps == [] {
      run := [];
    } else {
      var first := DiskStepShows(s, d, w, steps[0]);
      var rest := DiskRunIsFleetRun(s, DiskNext(s, d, steps[0]), Run(s, w, first), steps[1..]);
      RunConcat(s, w, first, rest);
      run := first + rest;
    }
  }

  // ---- what that means for the files ----

  /** The files and processes as a world, without the history of its votes. */
  ghost function AsWorld(d: Disks): World {
    World(map i | i in d.machines :: NodeOf(d.machines[i]), d.air, map[], d.sealed)
  }

  /** Every honest member is down, on a file that is believed to the last byte and
      holds no vote; nothing is on the air. */
  ghost predicate DiskInitial(s: Setup, d: Disks) {
    Initial(s, AsWorld(d))
    && forall i :: i in d.machines ==> LogFormat.Kept(d.machines[i].file) == |d.machines[i].file|
  }

  lemma InitialShows(s: Setup, d: Disks)
    requires DiskInitial(s, d)
    ensures Shows(d, AsWorld(d))
  {
    forall i | i in d.machines
      ensures LogJournal.Holds(d.machines[i].file, AsWorld(d).nodes[i].journal)
    {
      LogJournal.HoldsWhen(d.machines[i].file, AsWorld(d).nodes[i].journal);
    }
  }

  lemma SameNodes(d: Disks, w: World)
    requires Shows(d, w)
    ensures AsWorld(d).nodes == w.nodes
  {
    forall i | i in d.machines
      ensures AsWorld(d).nodes[i] == w.nodes[i]
    {
      NodeShown(d, w, i);
    }
  }

  lemma SameBackers(s: Setup, v: World, w: World)
    requires v.nodes == w.nodes
    ensures Backers(s, v) == Backers(s, w)
  {
    forall i | i in s.honest
      ensures VotedFor(s, v, i, Support) <==> VotedFor(s, w, i, Support)
    {
    }
  }

  /** Whatever byte any process died at: if any honest member's tally approves, at
      least `min_signers - max_faulty` honest members' files replay to a journal
      that holds the vote lock with a vote of support beside it. */
  lemma ApprovalIsOnDisk(s: Setup, d: Disks, steps: seq<DiskStep>, i: u16)
    requires LawfulSetup(s) && DiskInitial(s, d) && DiskAllowed(s, d, steps)
    requires SeesApproval(s, AsWorld(DiskRun(s, d, steps)), i)
    ensures |Backers(s, AsWorld(DiskRun(s, d, steps)))|
         >= s.policy.MinSigners() - s.policy.MaxFaulty() > 0
  {
    InitialShows(s, d);
    var run := DiskRunIsFleetRun(s, d, AsWorld(d), steps);
    var end := Run(s, AsWorld(d), run);
    SameNodes(DiskRun(s, d, steps), end);
    SameBackers(s, AsWorld(DiskRun(s, d, steps)), end);
    ApprovalIsBacked(s, AsWorld(d), run, i);
  }

  /** Nor does any of them ever seal two different envelopes under one nonce, below
      the counter's ceiling. */
  lemma NoncesNeverRepeatOnDisk(
    s: Setup, d: Disks, steps: seq<DiskStep>, e: Envelope, f: Envelope)
    requires LawfulSetup(s) && DiskInitial(s, d) && DiskAllowed(s, d, steps)
    requires e in DiskRun(s, d, steps).sealed && f in DiskRun(s, d, steps).sealed
    requires Sealing.NonceFor(e.author, e.sequence) == Sealing.NonceFor(f.author, f.sequence)
    requires e.sequence < U64_MAX
    ensures e == f
  {
    InitialShows(s, d);
    var run := DiskRunIsFleetRun(s, d, AsWorld(d), steps);
    NoncesNeverRepeat(s, AsWorld(d), run, e, f);
  }
}
