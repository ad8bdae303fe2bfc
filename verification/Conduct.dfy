/** What a member's acts come to: a frame says what it was built to say, a vote is the
    one that was cast, and what is committed or witnessed can be put on the air. */
module Conduct {
  import opened Basics
  import opened Postcard
  import opened Contracts
  import opened Journal
  import opened CompactFrame
  import opened Member
  import opened Fleet
  import opened Claims
  import CaseMachine
  import FleetLiveness
  import FleetSafety
  import Recount

  // ---- admitting ----

  /** A frame that says something about this claim is put to the case as just that,
      and any other leaves the case alone. */
  lemma AdmitsExactly(m: Mission, c: CaseMachine.CaseState, frame: seq<byte>, now: u64, o: Opinion)
    ensures Says(m, frame, o) ==> Admit(m, c, frame, now).0 == CaseMachine.Accepted(c, o, now).0
    ensures (forall p :: !Says(m, frame, p)) ==> Admit(m, c, frame, now) == (c, NOTHING)
  {
    if m.wire.believes(frame).Some? {
      var e := m.wire.believes(frame).value;
      CodesExactly(e.stage, o.stage, o.verdict);
      CodesExactly(e.verdict, o.stage, o.verdict);
      if About(m, e) && StageOf(e.stage).Some? && VerdictOf(e.verdict).Some? {
        var p := Opinion(m.ids[e.author], m.subject, StageOf(e.stage).value, VerdictOf(e.verdict).value);
        CodesExactly(e.stage, p.stage, p.verdict);
        CodesExactly(e.verdict, p.stage, p.verdict);
        assert Says(m, frame, p);
      }
    }
  }

  /** What is learned names the author: of a vote the case took, or of one it would
      not take yet. */
  lemma LearnsExactly(m: Mission, c: CaseMachine.CaseState, frame: seq<byte>, now: u64, e: Envelope, o: Opinion)
    requires m.wire.believes(frame) == Some(e) && Says(m, frame, o)
    ensures var r := CaseMachine.Accepted(c, o, now).1;
            Admit(m, c, frame, now).1
            == if o.stage == BindingSupport && r == Ok(()) then Learned(Some(e.author), None)
               else if o.stage == BindingSupport && r == Err(CaseMachine.WrongStageForPhase)
               then Learned(None, Some(e.author))
               else NOTHING
  {
    CodesExactly(e.stage, o.stage, o.verdict);
    CodesExactly(e.verdict, o.stage, o.verdict);
  }

  // ---- building ----

  /** The frame reads as this member's, with this number, map and round. */
  predicate ReadsAs(m: Mission, frame: seq<byte>, i: u16, sequence: u64, heard: eight, round: RoundId) {
    match m.wire.believes(frame)
    case None => false
    case Some(e) => e.author == i && e.sequence == sequence && e.heard == heard && e.round == round
  }

  /** A vote built for the first time says the verdict it was asked to, under the
      reserved number; it waits in the outbox under its lock, and the counter has
      passed it, before it is handed back. */
  lemma FreshVoteSays(m: Mission, i: u16, j: State, verdict: Verdict, heard: eight, round: RoundId)
    requires i as int < |m.ids| && Faithful(m.wire, |m.ids|) && !HasVoted(m, i, j)
    ensures var b := BuildVote(m, i, j, verdict, heard, round, true, true);
            b.frame.Some? && b.sealed == m.wire.believes(b.frame.value)
            && Says(m, b.frame.value, Opinion(m.ids[i], m.subject, BindingSupport, verdict))
            && ReadsAs(m, b.frame.value, i, j.nextSequence, heard, round)
            && j.nextSequence in b.journal.pending
            && b.journal.pending[j.nextSequence].bytes == b.frame.value
            && HasVoted(m, i, b.journal)
            && b.journal.nextSequence == SaturatingAdd(j.nextSequence, 1)
  {
  }

  /** A vote that could not be reserved or committed leaves no frame, and no lock. */
  lemma FailedVoteSaysNothing(m: Mission, i: u16, j: State, verdict: Verdict, heard: eight,
                              round: RoundId, reserves: bool, commits: bool)
    requires i as int < |m.ids| && !HasVoted(m, i, j) && !(reserves && commits)
    ensures var b := BuildVote(m, i, j, verdict, heard, round, reserves, commits);
            b.frame == None && !HasVoted(m, i, b.journal) && b.journal.pending == j.pending
            && b.journal.nextSequence == (if reserves then SaturatingAdd(j.nextSequence, 1) else j.nextSequence)
  {
  }

  /** Once the lock is held, asking again, for whatever verdict, hands back the waiting
      frame of the lowest number, byte for byte, and uses up nothing. */
  lemma AskedAgain(m: Mission, i: u16, j: State, verdict: Verdict, heard: eight, round: RoundId,
                   reserves: bool, commits: bool)
    requires i as int < |m.ids| && HasVoted(m, i, j)
    ensures var b := BuildVote(m, i, j, verdict, heard, round, reserves, commits);
            b.journal == j && b.sealed == None
            && (b.frame == None <==> j.pending == map[])
            && (b.frame.Some? ==> exists s :: IsLowest(s, j.pending.Keys) && b.frame == Some(j.pending[s].bytes))
  {
  }

  /** Anything but a vote says the stage and verdict it was built with. */
  lemma UtteranceSays(m: Mission, i: u16, j: State, stage: Stage, verdict: Verdict, heard: eight, round: RoundId)
    requires i as int < |m.ids| && Faithful(m.wire, |m.ids|)
    ensures var b := BuildOther(m, i, j, StageCode(stage), VerdictCode(verdict), heard, round, true);
            b.frame.Some? && b.sealed == m.wire.believes(b.frame.value)
            && Says(m, b.frame.value, Opinion(m.ids[i], m.subject, stage, verdict))
            && ReadsAs(m, b.frame.value, i, j.nextSequence, heard, round)
            && b.journal == j.(nextSequence := SaturatingAdd(j.nextSequence, 1))
  {
  }

  /** Without a number there is nothing to send, and nothing is sealed or changed. */
  lemma FailedUtteranceSaysNothing(m: Mission, i: u16, j: State, stage: byte, verdict: byte,
                                   heard: eight, round: RoundId)
    ensures BuildOther(m, i, j, stage, verdict, heard, round, false) == Built(j, None, None)
  {
  }

  /** An admitted vote is kept under its author's name if it reaches the disk and none
      was kept before; whatever else was kept stays. */
  lemma RemembersExactly(m: Mission, j: State, a: u16, frame: seq<byte>, durable: bool, id: text)
    requires a as int < |m.ids|
    ensures var after := Remember(m, j, Learned(Some(a), None), frame, durable);
            (id in after.witnessed <==> id in j.witnessed || (durable && id == m.ids[a]))
            && (id in after.witnessed ==>
                 after.witnessed[id] == if id in j.witnessed then j.witnessed[id] else frame)
            && after == j.(witnessed := after.witnessed)
  {
  }

  /** What the member puts on the air if it transmits right after this act. */
  function SentAfter(m: Mission, i: u16, n: Node, act: Act): Option<seq<byte>>
    requires i as int < |m.ids|
  {
    Do(m, i, Do(m, i, n, act).node, Transmit).sent
  }

  /** An opinion that got its number goes out as what it says, in any phase. */
  lemma UtteranceGoesOut(m: Mission, i: u16, n: Node, stage: Stage, verdict: Verdict, heard: eight, round: RoundId)
    requires i as int < |m.ids| && Faithful(m.wire, |m.ids|) && n.life.Some? && stage != BindingSupport
    ensures var sent := SentAfter(m, i, n, Utter(StageCode(stage), VerdictCode(verdict), heard, round, true));
            sent.Some? && Says(m, sent.value, Opinion(m.ids[i], m.subject, stage, verdict))
            && ReadsAs(m, sent.value, i, n.journal.nextSequence, heard, round)
  {
    UtteranceSays(m, i, n.journal, stage, verdict, heard, round);
  }

  /** A vote goes out only once consultation has closed: before that a cast does
      nothing, and nothing that is no vote can be made to read as one. */
  lemma NoVoteWhileConsulting(m: Mission, i: u16, n: Node, act: Act)
    requires i as int < |m.ids|
    requires n.life.Some? ==> n.life.value.situation.phase == CaseMachine.Consulting
    ensures var effect := Do(m, i, n, act);
            !effect.voted && effect.node.journal.locks == n.journal.locks
            && (effect.sealed.Some? ==> effect.sealed.value.stage != StageCode(BindingSupport))
  {
  }

  /** Afterwards the first vote that is cast, reserved and committed goes out as cast. */
  lemma CastGoesOut(m: Mission, i: u16, n: Node, verdict: Verdict, heard: eight, round: RoundId)
    requires i as int < |m.ids| && Faithful(m.wire, |m.ids|) && n.life.Some?
    requires n.life.value.situation.phase == CaseMachine.CollectingVotes && !HasVoted(m, i, n.journal)
    ensures var act := Cast(verdict, heard, round, true, true);
            Do(m, i, n, act).voted && SentAfter(m, i, n, act).Some?
            && Says(m, SentAfter(m, i, n, act).value, Opinion(m.ids[i], m.subject, BindingSupport, verdict))
            && ReadsAs(m, SentAfter(m, i, n, act).value, i, n.journal.nextSequence, heard, round)
  {
    FreshVoteSays(m, i, n.journal, verdict, heard, round);
  }

  // ---- a vote is the one that was cast ----

  /** This act, if it commits a vote, commits this one. */
  ghost predicate Casts(act: Act, e: Envelope) {
    act.Cast? && e.verdict == VerdictCode(act.choice) && e.heard == act.heard && e.round == act.round
  }

  ghost predicate CastBy(steps: seq<Step>, i: u16, e: Envelope) {
    exists k :: 0 <= k < |steps| && steps[k].Take? && steps[k].member == i && Casts(steps[k].act, e)
  }

  lemma OnlyCastVotes(m: Mission, i: u16, n: Node, act: Act)
    requires i as int < |m.ids|
    ensures var effect := Do(m, i, n, act);
            effect.voted && effect.sealed.Some? ==> Casts(act, effect.sealed.value)
  {
  }

  lemma StepVotes(s: Setup, w: World, step: Step, i: u16)
    requires Permitted(s, w, step) && i in Next(s, w, step).votes
    ensures (i in w.votes && Next(s, w, step).votes[i] == w.votes[i])
            || (step.Take? && step.member == i && Casts(step.act, Next(s, w, step).votes[i]))
  {
    if step.Take? {
      OnlyCastVotes(s.mission, step.member, w.nodes[step.member], step.act);
    }
  }

  lemma CastLater(steps: seq<Step>, i: u16, e: Envelope)
    requires steps != [] && CastBy(steps[1..], i, e)
    ensures CastBy(steps, i, e)
  {
    var k :| 0 <= k < |steps[1..]| && steps[1..][k].Take? && steps[1..][k].member == i
             && Casts(steps[1..][k].act, e);
    assert steps[k + 1] == steps[1..][k];
  }

  /** In every run, a member's vote is one it was asked to cast: verdict, map and
      round. */
  lemma {:induction false} VotesWereCast(s: Setup, w: World, steps: seq<Step>, i: u16)
    requires Allowed(s, w, steps) && i in Run(s, w, steps).votes
    ensures (i in w.votes && Run(s, w, steps).votes[i] == w.votes[i])
            || CastBy(steps, i, Run(s, w, steps).votes[i])
    decreases |steps|
  {
    if steps != [] {
      var next := Next(s, w, steps[0]);
      VotesWereCast(s, next, steps[1..], i);
      var e := Run(s, w, steps).votes[i];
      if CastBy(steps[1..], i, e) {
        CastLater(steps, i, e);
      } else {
        StepVotes(s, w, steps[0], i);
      }
    }
  }

  /** Every member that an approval can rest on was asked to support: each honest
      member whose verdict is on record anywhere had been told to cast it. */
  lemma RecordedWasCast(s: Setup, w: World, steps: seq<Step>, i: u16, k: nat, h: u16)
    requires LawfulSetup(s) && Initial(s, w) && Allowed(s, w, steps)
    requires i in Run(s, w, steps).nodes && k < |FleetSafety.Recorded(Run(s, w, steps), i)|
    requires h in s.honest && h as int < |s.mission.ids|
    requires FleetSafety.Recorded(Run(s, w, steps), i)[k].author == s.mission.ids[h]
    ensures exists n :: 0 <= n < |steps| && steps[n].Take? && steps[n].member == h
                        && steps[n].act.Cast?
                        && steps[n].act.choice == FleetSafety.Recorded(Run(s, w, steps), i)[k].verdict
  {
    var reached := Run(s, w, steps);
    FleetSafety.ReachedInv(s, w, steps);
    FleetSafety.CountedIsCommitted(s, reached, i, k, h);
    VotesWereCast(s, w, steps, h);
    var e := reached.votes[h];
    var o := FleetSafety.Recorded(reached, i)[k];
    var n :| 0 <= n < |steps| && steps[n].Take? && steps[n].member == h && Casts(steps[n].act, e);
    CodesExactly(e.verdict, o.stage, steps[n].act.choice);
  }

  // ---- what is kept can be sent ----

  ghost predicate OnSubject(s: Setup, n: Node) {
    n.life.Some? ==> n.life.value.situation.subject == s.mission.subject
  }

  ghost predicate AllOnSubject(s: Setup, w: World) {
    forall i :: i in w.nodes ==> OnSubject(s, w.nodes[i])
  }

  lemma ActKeepsSubject(s: Setup, i: u16, n: Node, act: Act)
    requires i as int < |s.mission.ids| && OnSubject(s, n)
    ensures OnSubject(s, Do(s.mission, i, n, act).node)
  {
  }

  lemma {:induction false} RunKeepsSubject(s: Setup, w: World, steps: seq<Step>)
    requires Allowed(s, w, steps) && AllOnSubject(s, w)
    ensures AllOnSubject(s, Run(s, w, steps))
    decreases |steps|
  {
    if steps != [] {
      if steps[0].Take? {
        ActKeepsSubject(s, steps[0].member, w.nodes[steps[0].member], steps[0].act);
      }
      RunKeepsSubject(s, Next(s, w, steps[0]), steps[1..]);
    }
  }

  lemma TwoSteps(s: Setup, w: World, first: Step, second: Step)
    requires Permitted(s, w, first) && Permitted(s, Next(s, w, first), second)
    ensures Allowed(s, w, [first, second])
    ensures Run(s, w, [first, second]) == Next(s, Next(s, w, first), second)
  {
    assert [first, second][1..] == [second];
    FleetLiveness.OneStep(s, Next(s, w, first), second);
  }

  /** The world a lawful fleet comes to by a run of permitted steps. */
  ghost predicate Reaches(s: Setup, w: World, steps: seq<Step>, reached: World) {
    LawfulSetup(s) && Initial(s, w) && Allowed(s, w, steps) && Run(s, w, steps) == reached
  }

  lemma ReachedKeeps(s: Setup, w: World, steps: seq<Step>, reached: World)
    requires Reaches(s, w, steps, reached)
    ensures Wired(s.mission) && Inv(s, reached)
    ensures FleetSafety.AllWitnessOk(s, reached) && AllOnSubject(s, reached)
  {
    FleetSafety.LawfulIsWired(s);
    FleetSafety.ReachedInv(s, w, steps);
    FleetSafety.RunKeepsWitnesses(s, w, steps);
    RunKeepsSubject(s, w, steps);
  }

  ghost predicate IsUp(w: World, i: u16) {
    i in w.nodes && w.nodes[i].life.Some?
  }

  lemma ResendsTheVote(s: Setup, w: World, i: u16)
    requires Wired(s.mission) && Inv(s, w) && i in w.votes && IsUp(w, i)
    ensures Permitted(s, w, Take(i, Resend))
    ensures s.mission.wire.frame(w.votes[i]) in Next(s, w, Take(i, Resend)).air
  {
    assert NodeOk(s, w.votes, w.sealed, i, w.nodes[i]);
    OutboxIsGenuine(s, w.votes, i, w.nodes[i].journal);
  }

  /** A vote once committed can be put on the air again in every life, and it is still
      the committed one. */
  lemma CommittedCanBeResent(s: Setup, w: World, steps: seq<Step>, reached: World, i: u16)
    requires Reaches(s, w, steps, reached) && i in reached.votes && IsUp(reached, i)
    ensures Permitted(s, reached, Take(i, Resend))
    ensures s.mission.wire.frame(reached.votes[i]) in Next(s, reached, Take(i, Resend)).air
  {
    ReachedKeeps(s, w, steps, reached);
    ResendsTheVote(s, reached, i);
  }

  /** Whatever else waits in the outbox, nothing is sent again, or held at a start as a
      vote of its own, by a member whose lock for this claim is free. */
  lemma OnlyAVoteIsResent(m: Mission, i: u16, n: Node, a: u16)
    requires i as int < |m.ids| && !HasVoted(m, i, n.journal)
    ensures Do(m, i, n, Resend).sent == None
    ensures a in Reborn(m, i, n.journal).early ==>
      a as int < |m.ids| && m.ids[a] in n.journal.witnessed
      && Reborn(m, i, n.journal).early[a] == n.journal.witnessed[m.ids[a]]
  {
  }

  lemma VoteCounts(m: Mission, c: CaseMachine.CaseState, frame: seq<byte>, now: u64, a: u16)
    requires Recount.VoteOf(m, a, frame) && a as int < |m.ids| && c.subject == m.subject
    requires c.phase == CaseMachine.CollectingVotes && CertainlyBefore(now, c.expiresAt)
    ensures m.ids[a] in Admit(m, c, frame, now).0.voted
  {
    var o := Opinion(m.ids[a], m.subject, BindingSupport, Recount.VerdictIn(m, a, frame));
    CodesExactly(m.wire.believes(frame).value.verdict, o.stage, o.verdict);
    AdmitsExactly(m, c, frame, now, o);
    CaseMachine.AcceptedExactly(c, o, now);
  }

  predicate Collects(c: CaseMachine.CaseState, now: u64) {
    c.phase == CaseMachine.CollectingVotes && CertainlyBefore(now, c.expiresAt)
  }

  ghost predicate HasCounted(w: World, k: u16, id: text) {
    IsUp(w, k) && id in w.nodes[k].life.value.situation.voted
  }

  lemma CarriesTheVote(s: Setup, w: World, i: u16, a: u16)
    requires Inv(s, w) && IsUp(w, i) && i as int < |s.mission.ids|
    requires a as int < |s.mission.ids| && s.mission.ids[a] in w.nodes[i].journal.witnessed
    ensures Permitted(s, w, Take(i, Carry(s.mission.ids[a])))
    ensures var after := Next(s, w, Take(i, Carry(s.mission.ids[a])));
            w.nodes[i].journal.witnessed[s.mission.ids[a]] in after.air && after.nodes == w.nodes
  {
    assert w.nodes[i := w.nodes[i]] == w.nodes;
  }

  lemma HearsTheVote(s: Setup, w: World, k: u16, a: u16, frame: seq<byte>, now: u64, durable: bool)
    requires Recount.VoteOf(s.mission, a, frame) && a as int < |s.mission.ids| && frame in w.air
    requires IsUp(w, k) && k in s.honest && k as int < |s.mission.ids| && OnSubject(s, w.nodes[k])
    requires Collects(w.nodes[k].life.value.situation, now)
    ensures Permitted(s, w, Take(k, Receive(frame, now, durable)))
    ensures HasCounted(Next(s, w, Take(k, Receive(frame, now, durable))), k, s.mission.ids[a])
  {
    VoteCounts(s.mission, w.nodes[k].life.value.situation, frame, now, a);
  }

  lemma HoldsTheEarly(m: Mission, n: Node, l: Life, a: u16, frame: seq<byte>, now: u64, durable: bool)
    requires Recount.VoteOf(m, a, frame) && a as int < |m.ids| && l.situation.subject == m.subject
    requires l.situation.phase == CaseMachine.Consulting && !CertainlyAfter(now, l.situation.expiresAt)
    ensures Received(m, n, l, frame, now, durable)
         == Node(n.journal, Some(l.(early := l.early[a := frame])))
  {
  }

  lemma DrainsTheVote(m: Mission, n: Node, l: Life, a: u16, now: u64)
    requires a in l.early && Recount.VoteOf(m, a, l.early[a]) && a as int < |m.ids|
    requires l.situation.subject == m.subject && Collects(l.situation, now)
    ensures var after := Drained(m, n, l, a, now, true);
            after.life.Some? && m.ids[a] in after.life.value.situation.voted
            && a !in after.life.value.early
            && (m.ids[a] !in l.situation.voted ==> m.ids[a] in after.journal.witnessed)
  {
    VoteCounts(m, l.situation, l.early[a], now, a);
  }

  /** A vote that arrives while the member still consults is not lost: once consultation
      has closed and what was held is drained, its author is counted and its frame is
      in the journal. */
  lemma EarlyVoteIsNotLost(
    m: Mission, i: u16, n: Node, a: u16, frame: seq<byte>, heard: u64, closed: u64, drained: u64, durable: bool)
    requires i as int < |m.ids| && a as int < |m.ids| && Recount.VoteOf(m, a, frame)
    requires n.life.Some?
    requires var c := n.life.value.situation;
             c.subject == m.subject && c.phase == CaseMachine.Consulting && m.ids[a] !in c.voted
             && !CertainlyAfter(heard, c.expiresAt)
             && CertainlyAfter(closed, c.subject.ConsultationCutoff())
             && CertainlyBefore(drained, c.expiresAt)
    ensures var held := Do(m, i, n, Receive(frame, heard, durable)).node;
            var frozen := Do(m, i, held, Freeze(closed)).node;
            var after := Do(m, i, frozen, Drain(a, drained, true)).node;
            after.life.Some? && m.ids[a] in after.life.value.situation.voted
            && m.ids[a] in after.journal.witnessed
  {
    var l := n.life.value;
    HoldsTheEarly(m, n, l, a, frame, heard, durable);
    var waiting := l.(early := l.early[a := frame]);
    var frozen := waiting.(situation := l.situation.(phase := CaseMachine.CollectingVotes));
    DrainsTheVote(m, Node(n.journal, Some(frozen)), frozen, a, drained);
  }

  /** A vote that one member has witnessed can be carried to another: whoever is
      collecting votes, and certainly before the expiry, has counted its author once it
      receives what the first puts on the air, whether or not the author is still there. */
  lemma CarriedVoteCounts(
    s: Setup, w: World, steps: seq<Step>, reached: World, i: u16, a: u16, k: u16, now: u64, durable: bool)
    requires Reaches(s, w, steps, reached) && IsUp(reached, i) && IsUp(reached, k)
    requires a as int < |s.mission.ids| && s.mission.ids[a] in reached.nodes[i].journal.witnessed
    requires Collects(reached.nodes[k].life.value.situation, now)
    ensures var frame := reached.nodes[i].journal.witnessed[s.mission.ids[a]];
            var more := [Take(i, Carry(s.mission.ids[a])), Take(k, Receive(frame, now, durable))];
            Allowed(s, reached, more) && HasCounted(Run(s, reached, more), k, s.mission.ids[a])
  {
    ReachedKeeps(s, w, steps, reached);
    assert NodeOk(s, reached.votes, reached.sealed, i, reached.nodes[i]);
    assert NodeOk(s, reached.votes, reached.sealed, k, reached.nodes[k]);
    var frame := reached.nodes[i].journal.witnessed[s.mission.ids[a]];
    var carry := Take(i, Carry(s.mission.ids[a]));
    CarriesTheVote(s, reached, i, a);
    HearsTheVote(s, Next(s, reached, carry), k, a, frame, now, durable);
    TwoSteps(s, reached, carry, Take(k, Receive(frame, now, durable)));
  }
}
