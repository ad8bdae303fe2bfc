/** From one life of a member to the next: a vote counted by a process that kept
    what it admitted is counted again by the process that takes its place. */
module FleetRestarts {
  import opened Basics
  import opened Postcard
  import opened Contracts
  import opened Journal
  import opened CompactFrame
  import opened Member
  import opened Fleet
  import opened FleetSafety
  import CaseMachine
  import R = Recount

  /** If this is member `i` keeping an admitted vote, the journal does keep it. */
  predicate Durable(i: u16, step: Step) {
    step.Take? && step.member == i ==>
      (step.act.Receive? ==> step.act.durable) && (step.act.Drain? ==> step.act.durable)
  }

  predicate AllDurable(i: u16, steps: seq<Step>) {
    forall k :: 0 <= k < |steps| ==> Durable(i, steps[k])
  }

  /** The journal of member `i` has this member's vote, or it is its own. */
  predicate InJournal(m: Mission, i: u16, j: State, id: text) {
    exists a: u16 :: a as int < |m.ids| && m.ids[a] == id && (id in j.witnessed || a == i)
  }

  /** A frame that a process has built reads as its own, if it reads at all. */
  predicate ReadsAsOwn(m: Mission, i: u16, frame: seq<byte>) {
    m.wire.believes(frame).Some? ==> m.wire.believes(frame).value.author == i
  }

  /** A process that is up may be, its journal has everything it has counted, and
      what it last built is its own. */
  ghost predicate Kept(m: Mission, i: u16, n: Node) {
    n.life.Some? ==>
      !RolledBack(m, n.journal)
      && (forall id :: id in Authors(n.life.value.situation) ==> InJournal(m, i, n.journal, id))
      && (n.life.value.ready.Some? ==> ReadsAsOwn(m, i, n.life.value.ready.value))
  }

  lemma StillInJournal(m: Mission, i: u16, j: State, k: State, ids: set<text>)
    requires forall id :: id in ids ==> InJournal(m, i, j, id)
    requires j.witnessed.Keys <= k.witnessed.Keys
    ensures forall id :: id in ids ==> InJournal(m, i, k, id)
  {
  }

  /** Whose binding votes a case has counted. */
  function Authors(c: CaseMachine.CaseState): set<text> {
    AuthorsIn(c.binding)
  }

  function AuthorsIn(binding: seq<Opinion>): set<text> {
    set k | 0 <= k < |binding| :: binding[k].author
  }

  lemma AuthorsSnoc(binding: seq<Opinion>, more: seq<Opinion>)
    requires |more| == |binding| + 1 && more[..|binding|] == binding
    ensures AuthorsIn(more) == AuthorsIn(binding) + {more[|binding|].author}
  {
    forall id | id in AuthorsIn(binding)
      ensures id in AuthorsIn(more)
    {
      var k :| 0 <= k < |binding| && binding[k].author == id;
      assert more[..|binding|][k] == more[k];
    }
    forall id | id in AuthorsIn(more)
      ensures id in AuthorsIn(binding) || id == more[|binding|].author
    {
      var k :| 0 <= k < |more| && more[k].author == id;
      if k < |binding| {
        assert more[..|binding|][k] == more[k];
      }
    }
  }

  /** Admitting adds nobody but the author of the frame. */
  lemma AdmitsTheAuthor(m: Mission, c: CaseMachine.CaseState, frame: seq<byte>, now: u64)
    ensures var (after, learned) := Admit(m, c, frame, now);
            Authors(after) == Authors(c)
            || (m.wire.believes(frame).Some?
                && m.wire.believes(frame).value.author as int < |m.ids|
                && learned.binding == Some(m.wire.believes(frame).value.author)
                && Authors(after) == Authors(c) + {m.ids[m.wire.believes(frame).value.author]})
  {
    var after := Admit(m, c, frame, now).0;
    if after.binding != c.binding {
      AuthorsSnoc(c.binding, after.binding);
    }
  }

  lemma TakenInIsKept(m: Mission, i: u16, j: State, c: CaseMachine.CaseState, frame: seq<byte>, now: u64)
    requires forall id :: id in Authors(c) ==> InJournal(m, i, j, id)
    ensures var (after, learned) := Admit(m, c, frame, now);
            var k := Remember(m, j, learned, frame, true);
            k.epoch == j.epoch
            && forall id :: id in Authors(after) ==> InJournal(m, i, k, id)
  {
    var (after, learned) := Admit(m, c, frame, now);
    var k := Remember(m, j, learned, frame, true);
    AdmitsTheAuthor(m, c, frame, now);
    StillInJournal(m, i, j, k, Authors(c));
    if Authors(after) != Authors(c) {
      var a := learned.binding.value;
      assert m.ids[a] in k.witnessed;
      assert InJournal(m, i, k, m.ids[a]);
    }
  }

  lemma OwnIsKept(m: Mission, i: u16, j: State, c: CaseMachine.CaseState, own: seq<byte>, now: u64)
    requires i as int < |m.ids| && ReadsAsOwn(m, i, own)
    requires forall id :: id in Authors(c) ==> InJournal(m, i, j, id)
    ensures forall id :: id in Authors(Admit(m, c, own, now).0) ==> InJournal(m, i, j, id)
  {
    AdmitsTheAuthor(m, c, own, now);
  }

  lemma BuiltReadsAsOwn(
    m: Mission, i: u16, stage: byte, verdict: byte, sequence: u64, heard: eight, round: RoundId)
    requires Wired(m) && i as int < |m.ids|
    ensures ReadsAsOwn(m, i, m.wire.frame(EnvelopeOf(m, i, stage, verdict, sequence, heard, round)))
  {
    var e := EnvelopeOf(m, i, stage, verdict, sequence, heard, round);
    assert m.wire.believes(m.wire.frame(e)) == Some(e);
  }

  lemma UtterKeeps(m: Mission, i: u16, n: Node, l: Life, stage: byte, verdict: byte, heard: eight,
                   round: RoundId, reserves: bool)
    requires Wired(m) && i as int < |m.ids| && n.life == Some(l) && Kept(m, i, n)
    ensures Kept(m, i, Doing(m, i, n, l, Utter(stage, verdict, heard, round, reserves)).node)
  {
    BuiltReadsAsOwn(m, i, stage, verdict, n.journal.nextSequence, heard, round);
    StillInJournal(m, i, n.journal, Perform(n.journal, ReserveSequence).0, Authors(l.situation));
  }

  lemma CastKeeps(m: Mission, i: u16, n: Node, l: Life, choice: Verdict, heard: eight,
                  round: RoundId, reserves: bool, commits: bool)
    requires Wired(m) && i as int < |m.ids| && n.life == Some(l) && Kept(m, i, n)
    requires FirstPending(n.journal).Some? ==> ReadsAsOwn(m, i, FirstPending(n.journal).value)
    ensures Kept(m, i, Doing(m, i, n, l, Cast(choice, heard, round, reserves, commits)).node)
  {
    var b := BuildVote(m, i, n.journal, choice, heard, round, reserves, commits);
    BuiltReadsAsOwn(m, i, StageCode(BindingSupport), VerdictCode(choice), n.journal.nextSequence,
                    heard, round);
    assert b.journal.witnessed == n.journal.witnessed && b.journal.epoch == n.journal.epoch;
    StillInJournal(m, i, n.journal, b.journal, Authors(l.situation));
  }

  /** Whatever a process that keeps what it admits does, its journal has
      everything it has counted. */
  lemma ActKeeps(m: Mission, i: u16, n: Node, act: Act)
    requires Wired(m) && i as int < |m.ids| && Kept(m, i, n) && Durable(i, Take(i, act))
    requires FirstPending(n.journal).Some? ==> ReadsAsOwn(m, i, FirstPending(n.journal).value)
    ensures Kept(m, i, Do(m, i, n, act).node)
  {
    if n.life.Some? {
      var l := n.life.value;
      match act
      case Utter(stage, verdict, heard, round, reserves) =>
        UtterKeeps(m, i, n, l, stage, verdict, heard, round, reserves);
      case Cast(choice, heard, round, reserves, commits) =>
        CastKeeps(m, i, n, l, choice, heard, round, reserves, commits);
      case AdmitOwn(now) =>
        if l.ready.Some? {
          OwnIsKept(m, i, n.journal, l.situation, l.ready.value, now);
        }
      case Receive(frame, now, _) => TakenInIsKept(m, i, n.journal, l.situation, frame, now);
      case Drain(author, now, _) =>
        if author in l.early {
          TakenInIsKept(m, i, n.journal, l.situation, l.early[author], now);
        }
      case Note(sender, sequence) =>
        StillInJournal(m, i, n.journal, Perform(n.journal, MarkSeen(sender, sequence)).0,
                       Authors(l.situation));
      case _ =>
    }
  }

  lemma OutboxReadsAsOwn(s: Setup, w: World, i: u16)
    requires Wired(s.mission) && Inv(s, w) && i in w.nodes
    ensures FirstPending(w.nodes[i].journal).Some? ==>
      ReadsAsOwn(s.mission, i, FirstPending(w.nodes[i].journal).value)
  {
    OutboxIsVote(s, w, i);
  }

  lemma StepKeeps(s: Setup, w: World, step: Step, i: u16)
    requires Wired(s.mission) && Inv(s, w) && Permitted(s, w, step) && Durable(i, step)
    requires i in w.nodes && i as int < |s.mission.ids| && Kept(s.mission, i, w.nodes[i])
    ensures i in Next(s, w, step).nodes && Kept(s.mission, i, Next(s, w, step).nodes[i])
  {
    if step.Take? && step.member == i {
      OutboxReadsAsOwn(s, w, i);
      ActKeeps(s.mission, i, w.nodes[i], step.act);
    }
  }

  lemma DurableTail(i: u16, steps: seq<Step>)
    requires AllDurable(i, steps) && steps != []
    ensures Durable(i, steps[0]) && AllDurable(i, steps[1..])
  {
    assert forall k :: 0 <= k < |steps[1..]| ==> steps[1..][k] == steps[k + 1];
  }

  lemma {:induction false} LifeKeeps(s: Setup, w: World, steps: seq<Step>, i: u16)
    requires Wired(s.mission) && Inv(s, w) && Allowed(s, w, steps) && AllDurable(i, steps)
    requires i in w.nodes && i as int < |s.mission.ids| && Kept(s.mission, i, w.nodes[i])
    ensures i in Run(s, w, steps).nodes && Kept(s.mission, i, Run(s, w, steps).nodes[i])
    decreases |steps|
  {
    if steps != [] {
      DurableTail(i, steps);
      StepKeepsInv(s, w, steps[0]);
      StepKeeps(s, w, steps[0], i);
      LifeKeeps(s, Next(s, w, steps[0]), steps[1..], i);
    }
  }

  // ---- counted again ----

  /** A process that starts on this journal, freezes and offers what it holds. */
  function Back(m: Mission, i: u16, j: State, now: u64, order: seq<u16>): Node
    requires i as int < |m.ids|
  {
    R.Acts(m, i, Node(j, None), [Restart, Freeze(now)] + R.Drains(order, now))
  }

  lemma CountedIsRecorded(w: World, i: u16, id: text)
    requires i in w.nodes && w.nodes[i].life.Some?
    requires id in Authors(w.nodes[i].life.value.situation)
    ensures exists k :: 0 <= k < |Recorded(w, i)| && Recorded(w, i)[k].author == id
  {
    var binding := w.nodes[i].life.value.situation.binding;
    var k :| 0 <= k < |binding| && binding[k].author == id;
    assert Recorded(w, i)[k].author == id;
  }

  /** Whoever was counted is among what the next process starts with. */
  lemma CountedIsHeld(s: Setup, w: World, i: u16, id: text)
    requires Wired(s.mission) && Inv(s, w) && i in s.honest && i in w.nodes
    requires i as int < |s.mission.ids| && R.WitnessOk(s.mission, w.nodes[i].journal)
    requires Kept(s.mission, i, w.nodes[i]) && w.nodes[i].life.Some?
    requires id in Authors(w.nodes[i].life.value.situation)
    ensures exists a: u16 ::
      a as int < |s.mission.ids| && s.mission.ids[a] == id
      && a in R.StartsWith(s.mission, i, Node(w.nodes[i].journal, None))
  {
    var m, n := s.mission, w.nodes[i];
    var down := Node(n.journal, None);
    OutboxIsVote(s, w, i);
    R.StartsWithVotes(m, i, down);
    var a: u16 :| a as int < |m.ids| && m.ids[a] == id && (id in n.journal.witnessed || a == i);
    if id !in n.journal.witnessed {
      CountedIsRecorded(w, i, id);
      var k :| 0 <= k < |Recorded(w, i)| && Recorded(w, i)[k].author == id;
      CountedIsCommitted(s, w, i, k, i);
      OwnVoteIsHeld(s, w, i);
    }
  }

  lemma OwnVoteIsHeld(s: Setup, w: World, i: u16)
    requires Wired(s.mission) && Inv(s, w) && i in w.nodes && i in w.votes
    requires i as int < |s.mission.ids|
    ensures i in R.StartsWith(s.mission, i, Node(w.nodes[i].journal, None))
  {
    assert NodeOk(s, w.votes, w.sealed, i, w.nodes[i]);
    var j := Perform(w.nodes[i].journal, EnterEpoch(s.mission.epoch)).0;
    assert OutboxOk(s, w.votes, i, j);
    OutboxIsGenuine(s, w.votes, i, j);
  }

  lemma GenuineSays(s: Setup, votes: map<u16, Envelope>, frame: seq<byte>, h: u16, v: Verdict)
    requires Genuine(s, votes, frame) && R.VoteOf(s.mission, h, frame) && h in s.honest
    requires h in votes && VerdictOf(votes[h].verdict) == Some(v)
    ensures R.VerdictIn(s.mission, h, frame) == v
  {
  }

  lemma HeldIsGenuine(s: Setup, w: World, i: u16, h: u16)
    requires Wired(s.mission) && Inv(s, w) && i in w.nodes && i as int < |s.mission.ids|
    requires !RolledBack(s.mission, w.nodes[i].journal)
    requires h in R.StartsWith(s.mission, i, Node(w.nodes[i].journal, None))
    ensures Genuine(s, w.votes, R.StartsWith(s.mission, i, Node(w.nodes[i].journal, None))[h])
  {
    var down := Node(w.nodes[i].journal, None);
    assert NodeOk(s, w.votes, w.sealed, i, w.nodes[i]);
    RestartKeeps(s, w.votes, w.sealed, i, down);
    assert Do(s.mission, i, down, Restart).node.life.value.early == R.StartsWith(s.mission, i, down);
  }

  /** An honest member's vote is held as it was counted. */
  lemma HonestIsHeldAlike(s: Setup, w: World, i: u16, k: nat, h: u16)
    requires Wired(s.mission) && Inv(s, w) && i in w.nodes && i as int < |s.mission.ids|
    requires R.WitnessOk(s.mission, w.nodes[i].journal) && !RolledBack(s.mission, w.nodes[i].journal)
    requires k < |Recorded(w, i)| && h in s.honest && h as int < |s.mission.ids|
    requires s.mission.ids[h] == Recorded(w, i)[k].author
    requires h in R.StartsWith(s.mission, i, Node(w.nodes[i].journal, None))
    ensures var held := R.StartsWith(s.mission, i, Node(w.nodes[i].journal, None));
            R.VoteOf(s.mission, h, held[h])
            && R.VerdictIn(s.mission, h, held[h]) == Recorded(w, i)[k].verdict
  {
    var held := R.StartsWith(s.mission, i, Node(w.nodes[i].journal, None));
    HeldIsGenuine(s, w, i, h);
    OutboxIsVote(s, w, i);
    R.StartsWithVotes(s.mission, i, Node(w.nodes[i].journal, None));
    CountedIsCommitted(s, w, i, k, h);
    GenuineSays(s, w.votes, held[h], h, Recorded(w, i)[k].verdict);
  }

  lemma EverybodyIsHeld(s: Setup, w: World, i: u16, order: seq<u16>)
    requires Wired(s.mission) && Inv(s, w) && i in s.honest && i in w.nodes
    requires i as int < |s.mission.ids| && R.WitnessOk(s.mission, w.nodes[i].journal)
    requires Kept(s.mission, i, w.nodes[i]) && w.nodes[i].life.Some?
    requires forall a :: a in order <==> a in R.StartsWith(s.mission, i, Node(w.nodes[i].journal, None))
    ensures Authors(w.nodes[i].life.value.situation) <= R.NamesOf(s.mission, order)
  {
    forall id | id in Authors(w.nodes[i].life.value.situation)
      ensures id in R.NamesOf(s.mission, order)
    {
      CountedIsHeld(s, w, i, id);
      var a: u16 :| a as int < |s.mission.ids| && s.mission.ids[a] == id
        && a in R.StartsWith(s.mission, i, Node(w.nodes[i].journal, None));
      assert a in order;
    }
  }

  lemma HonestSupportIsHeld(s: Setup, w: World, i: u16, order: seq<u16>)
    requires Wired(s.mission) && Inv(s, w) && i in s.honest && i in w.nodes
    requires i as int < |s.mission.ids| && R.WitnessOk(s.mission, w.nodes[i].journal)
    requires Kept(s.mission, i, w.nodes[i]) && w.nodes[i].life.Some?
    requires forall a :: a in order <==> a in R.StartsWith(s.mission, i, Node(w.nodes[i].journal, None))
    ensures Tally(w, i) * HonestIds(s)
         <= R.Supporting(s.mission, R.StartsWith(s.mission, i, Node(w.nodes[i].journal, None)), order)
  {
    var m, held := s.mission, R.StartsWith(s.mission, i, Node(w.nodes[i].journal, None));
    forall id | id in Tally(w, i) && id in HonestIds(s)
      ensures id in R.Supporting(m, held, order)
    {
      Counted(w, i, id);
      var k :| 0 <= k < |Recorded(w, i)| && Recorded(w, i)[k].verdict == Support
        && Recorded(w, i)[k].author == id;
      var h :| h in s.honest && h as int < |m.ids| && m.ids[h] == id;
      CountedIsHeld(s, w, i, id);
      var a: u16 :| a as int < |m.ids| && m.ids[a] == id && a in held;
      IdsDiffer(s, a, h);
      HonestIsHeldAlike(s, w, i, k, h);
      assert h in order;
    }
  }

  /** The act offers this frame to the case and makes it durable if it is
      admitted: heard just now, or held since it came too early. */
  predicate TakesIn(n: Node, act: Act, frame: seq<byte>, now: u64) {
    n.life.Some?
    && (act == Receive(frame, now, true)
        || (act.Drain? && act == Drain(act.author, now, true)
            && act.author in n.life.value.early && n.life.value.early[act.author] == frame))
  }

  lemma TakenInIsWitnessed(m: Mission, i: u16, n: Node, act: Act, a: u16, frame: seq<byte>, now: u64)
    requires TakesIn(n, act, frame, now) && i as int < |m.ids| && a as int < |m.ids|
    requires Admit(m, n.life.value.situation, frame, now).1.binding == Some(a)
    ensures var known := n.journal.witnessed;
            Do(m, i, n, act).node.journal
            == n.journal.(witnessed := if m.ids[a] in known then known else known[m.ids[a] := frame])
  {
  }

  /** What the next process holds of another member is what was witnessed of it. */
  lemma HeldOfOthers(m: Mission, i: u16, j: State, a: u16)
    requires i as int < |m.ids| && a as int < |m.ids| && a != i
    ensures var held := R.StartsWith(m, i, Node(j, None));
            (a in held <==> m.ids[a] in j.witnessed)
            && (a in held ==> held[a] == j.witnessed[m.ids[a]])
  {
  }

  /** Another member's vote, admitted and made durable as it was heard or as it was
      held, is counted by the next process for what it says exactly when the
      journal had none under that name before, or one that says the same. */
  lemma CountedAlikeExactly(m: Mission, i: u16, n: Node, act: Act, a: u16, frame: seq<byte>, now: u64)
    requires R.DistinctIds(m) && R.WitnessOk(m, n.journal) && TakesIn(n, act, frame, now)
    requires i as int < |m.ids| && a as int < |m.ids| && a != i
    requires Admit(m, n.life.value.situation, frame, now).1.binding == Some(a)
    ensures var held := R.StartsWith(m, i, Node(Do(m, i, n, act).node.journal, None));
            var known := n.journal.witnessed;
            R.VoteOf(m, a, frame) && a in held && R.VoteOf(m, a, held[a])
            && (R.VerdictIn(m, a, held[a]) == R.VerdictIn(m, a, frame)
                <==> m.ids[a] !in known || R.VerdictIn(m, a, known[m.ids[a]]) == R.VerdictIn(m, a, frame))
  {
    R.AdmittedIsVote(m, n.life.value.situation, frame, now);
    TakenInIsWitnessed(m, i, n, act, a, frame, now);
    HeldOfOthers(m, i, Do(m, i, n, act).node.journal, a);
  }

  /** When every vote a member admitted since it was last down was made durable,
      its next process counts everybody the present one has counted, and every
      honest supporter among them as a supporter. (A faulty member that says two
      things may be counted for the one it was first witnessed to say.) */
  lemma NobodyIsForgotten(
    s: Setup, w: World, steps: seq<Step>, life: seq<Step>, i: u16, now: u64, order: seq<u16>)
    requires LawfulSetup(s) && Initial(s, w) && Allowed(s, w, steps)
    requires i in s.honest && i in Run(s, w, steps).nodes && Run(s, w, steps).nodes[i].life == None
    requires Allowed(s, Run(s, w, steps), life) && AllDurable(i, life)
    requires i as int < |s.mission.ids| && i in Run(s, Run(s, w, steps), life).nodes
    requires Run(s, Run(s, w, steps), life).nodes[i].life.Some?
    requires CertainlyAfter(now, s.mission.subject.ConsultationCutoff())
    requires CertainlyBefore(now, s.mission.subject.DefaultExpiry()) && R.Each(order)
    requires forall a :: a in order <==>
      a in R.StartsWith(s.mission, i, Node(Run(s, Run(s, w, steps), life).nodes[i].journal, None))
    ensures var up := Run(s, Run(s, w, steps), life);
            var back := Back(s.mission, i, up.nodes[i].journal, now, order);
            back.life.Some?
            && Authors(up.nodes[i].life.value.situation) <= back.life.value.situation.voted
            && Tally(up, i) * HonestIds(s) <= CaseMachine.Supporters(back.life.value.situation)
  {
    var before := Run(s, w, steps);
    var up := Run(s, before, life);
    LawfulIsWired(s);
    ReachedInv(s, w, steps);
    RunKeepsWitnesses(s, w, steps);
    LifeKeeps(s, before, life, i);
    RunKeepsInv(s, before, life);
    RunKeepsWitnesses(s, before, life);
    OutboxIsVote(s, up, i);
    EverybodyIsHeld(s, up, i, order);
    HonestSupportIsHeld(s, up, i, order);
    R.TallySurvives(s.mission, i, Node(up.nodes[i].journal, None), now, order);
  }
}
