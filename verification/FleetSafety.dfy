/** What the fleet's order gives: vote safety, agreement, nonces that never
    repeat, and tallies that survive a restart. */
module FleetSafety {
  import opened Basics
  import opened Postcard
  import opened Contracts
  import opened CompactFrame
  import opened Quorum
  import opened Member
  import opened Fleet
  import CaseMachine
  import R = Recount
  import Sealing

  /** What a member's own journal shows: the lock is held, and its outbox keeps
      the member's binding vote with this verdict. */
  ghost predicate VotedFor(s: Setup, w: World, i: u16, v: Verdict) {
    i in w.nodes && i as int < |s.mission.ids|
    && HasVoted(s.mission, i, w.nodes[i].journal)
    && exists k ::
         (k in w.nodes[i].journal.pending
          && VotesFor(s, i, w.nodes[i].journal.pending[k].bytes, v))
  }

  /** The bytes read as member `i`'s binding vote with this verdict. */
  ghost predicate VotesFor(s: Setup, i: u16, frame: seq<byte>, v: Verdict) {
    match s.mission.wire.believes(frame)
    case None => false
    case Some(e) => VoteBy(s, i, e) && VerdictOf(e.verdict) == Some(v)
  }

  /** The honest members whose journals show a binding vote of support. */
  ghost function Backers(s: Setup, w: World): set<u16> {
    set i | i in s.honest && VotedFor(s, w, i, Support)
  }

  /** The binding votes a member has recorded in its present life. */
  function Recorded(w: World, i: u16): seq<Opinion> {
    if i in w.nodes && w.nodes[i].life.Some? then w.nodes[i].life.value.situation.binding else []
  }

  /** The supporters it counts. */
  function Tally(w: World, i: u16): set<text> {
    if i in w.nodes && w.nodes[i].life.Some?
    then CaseMachine.Supporters(w.nodes[i].life.value.situation)
    else {}
  }

  lemma Counted(w: World, i: u16, id: text)
    requires id in Tally(w, i)
    ensures exists k :: 0 <= k < |Recorded(w, i)| && Recorded(w, i)[k].verdict == Support
                        && Recorded(w, i)[k].author == id
  {
    var binding := Recorded(w, i);
    var k :| 0 <= k < |binding| && binding[k].verdict == Support && binding[k].author == id;
  }

  /** The member's tally clears both thresholds. */
  ghost predicate SeesApproval(s: Setup, w: World, i: u16) {
    Approves(s.policy, Tally(w, i))
  }

  lemma LawfulIsWired(s: Setup)
    requires LawfulSetup(s)
    ensures Wired(s.mission)
    ensures forall i :: i in s.honest ==> i as int < |s.mission.ids|
  {
  }

  lemma ReachedInv(s: Setup, w: World, steps: seq<Step>)
    requires LawfulSetup(s) && Initial(s, w) && Allowed(s, w, steps)
    ensures Inv(s, Run(s, w, steps))
  {
    LawfulIsWired(s);
    InitialInv(s, w);
    RunKeepsInv(s, w, steps);
  }

  // ---- votes ----

  lemma CommittedIsDurable(s: Setup, w: World, i: u16)
    requires Wired(s.mission) && Inv(s, w) && i in w.votes
    ensures VerdictOf(w.votes[i].verdict).Some?
    ensures VotedFor(s, w, i, VerdictOf(w.votes[i].verdict).value)
  {
    var j := w.nodes[i].journal;
    assert NodeOk(s, w.votes, w.sealed, i, w.nodes[i]);
    var k := w.votes[i].sequence;
    assert k in j.pending;
    OwnFrameReads(s, i, w.votes[i]);
    assert VotesFor(s, i, j.pending[k].bytes, VerdictOf(w.votes[i].verdict).value);
  }

  lemma CountedIsCommitted(s: Setup, w: World, i: u16, k: nat, j: u16)
    requires Inv(s, w) && k < |Recorded(w, i)|
    requires j in s.honest && j as int < |s.mission.ids|
    requires s.mission.ids[j] == Recorded(w, i)[k].author
    ensures j in w.votes
    ensures VerdictOf(w.votes[j].verdict) == Some(Recorded(w, i)[k].verdict)
  {
    assert NodeOk(s, w.votes, w.sealed, i, w.nodes[i]);
    assert Honoured(s, w.votes, w.nodes[i].life.value.situation.binding[k]);
  }

  /** An honest supporter in anybody's tally has voted so in its own journal. */
  lemma SupporterIsBacker(s: Setup, w: World, i: u16, id: text)
    requires Wired(s.mission) && Inv(s, w)
    requires id in Tally(w, i) && id in HonestIds(s)
    ensures exists j :: j in Backers(s, w) && j as int < |s.mission.ids| && s.mission.ids[j] == id
  {
    Counted(w, i, id);
    var k :| 0 <= k < |Recorded(w, i)| && Recorded(w, i)[k].verdict == Support
      && Recorded(w, i)[k].author == id;
    var j :| j in s.honest && j as int < |s.mission.ids| && s.mission.ids[j] == id;
    CountedIsCommitted(s, w, i, k, j);
    CommittedIsDurable(s, w, j);
    assert j in Backers(s, w);
  }

  function Named(ids: seq<text>, members: set<u16>): set<text> {
    set j | j in members && j as int < |ids| :: ids[j]
  }

  lemma {:induction false} NamesAreNoMore(ids: seq<text>, members: set<u16>)
    ensures |Named(ids, members)| <= |members|
    decreases |members|
  {
    if members == {} {
      assert Named(ids, members) == {};
    } else {
      var j :| j in members;
      var rest := members - {j};
      NamesAreNoMore(ids, rest);
      assert members == rest + {j};
      if j as int < |ids| {
        assert Named(ids, members) == Named(ids, rest) + {ids[j]};
      } else {
        assert Named(ids, members) == Named(ids, rest);
      }
    }
  }

  lemma HonestSupporters(s: Setup, w: World, i: u16)
    requires Wired(s.mission) && Inv(s, w) && SeesApproval(s, w, i)
    ensures Tally(w, i) - (s.policy.competences.Keys - HonestIds(s))
         <= Named(s.mission.ids, Backers(s, w))
  {
    forall id | id in Tally(w, i) - (s.policy.competences.Keys - HonestIds(s))
      ensures id in Named(s.mission.ids, Backers(s, w))
    {
      SupporterIsBacker(s, w, i, id);
    }
  }

  lemma HonestShare(p: Policy, faulty: set<text>, supporters: set<text>)
    requires Quorum.Lawful(p) && Approves(p, supporters) && |faulty| <= p.MaxFaulty()
    ensures |supporters - faulty| >= p.MinSigners() - p.MaxFaulty() > 0
  {
    QuorumsShareAnHonestMember(p, faulty, supporters, supporters);
    FaultBudget(p);
  }

  /** Whatever crashed, was lost, repeated or reordered, and whatever at most
      `max_faulty` members sent: if any honest member's tally approves, at least
      `min_signers - max_faulty` honest members hold the vote lock in their own
      journals with a vote of support beside it. */
  lemma ApprovalIsBacked(s: Setup, w: World, steps: seq<Step>, i: u16)
    requires LawfulSetup(s) && Initial(s, w) && Allowed(s, w, steps)
    requires SeesApproval(s, Run(s, w, steps), i)
    ensures |Backers(s, Run(s, w, steps))| >= s.policy.MinSigners() - s.policy.MaxFaulty() > 0
  {
    var now := Run(s, w, steps);
    LawfulIsWired(s);
    ReachedInv(s, w, steps);
    HonestSupporters(s, now, i);
    var supporters := Tally(now, i);
    var faulty := s.policy.competences.Keys - HonestIds(s);
    HonestShare(s.policy, faulty, supporters);
    Subset(supporters - faulty, Named(s.mission.ids, Backers(s, now)));
    NamesAreNoMore(s.mission.ids, Backers(s, now));
  }

  /** An honest member both tallies count, whose journal shows its support at
      the earlier moment and still at the later one. */
  ghost predicate SharedBacker(s: Setup, before: World, i: u16, after: World, j: u16, h: u16) {
    h in Backers(s, before) && h in Backers(s, after) && h as int < |s.mission.ids|
    && s.mission.ids[h] in Tally(before, i) && s.mission.ids[h] in Tally(after, j)
  }

  lemma HonestMeet(s: Setup, before: World, i: u16, after: World, j: u16)
    requires LawfulSetup(s) && SeesApproval(s, before, i) && SeesApproval(s, after, j)
    ensures exists id :: id in Tally(before, i) && id in Tally(after, j) && id in HonestIds(s)
  {
    var faulty := s.policy.competences.Keys - HonestIds(s);
    QuorumsShareAnHonestMember(s.policy, faulty, Tally(before, i), Tally(after, j));
    var id :| id in Tally(before, i) && id in Tally(after, j) && id !in faulty;
  }

  /** Any two approving tallies, at any two members and any two moments of a run,
      restarts between them or not, share an honest member whose journal shows
      its support at both. */
  lemma ApprovalsShareABacker(
    s: Setup, w: World, steps: seq<Step>, later: seq<Step>, i: u16, j: u16)
    requires LawfulSetup(s) && Initial(s, w) && Allowed(s, w, steps)
    requires Allowed(s, Run(s, w, steps), later)
    requires SeesApproval(s, Run(s, w, steps), i)
    requires SeesApproval(s, Run(s, Run(s, w, steps), later), j)
    ensures exists h :: SharedBacker(s, Run(s, w, steps), i, Run(s, Run(s, w, steps), later), j, h)
  {
    var before := Run(s, w, steps);
    var after := Run(s, before, later);
    LawfulIsWired(s);
    ReachedInv(s, w, steps);
    HonestMeet(s, before, i, after, j);
    var id :| id in Tally(before, i) && id in Tally(after, j) && id in HonestIds(s);
    SupporterIsBacker(s, before, i, id);
    var h :| h in Backers(s, before) && h as int < |s.mission.ids| && s.mission.ids[h] == id;
    BackersStay(s, w, steps, later);
    assert SharedBacker(s, before, i, after, j, h);
  }

  /** Two members that record the same honest member's binding vote, at any two
      moments of a run, record the same verdict. */
  lemma VerdictsAgree(
    s: Setup, w: World, steps: seq<Step>, later: seq<Step>, i: u16, k: nat, j: u16, l: nat)
    requires LawfulSetup(s) && Initial(s, w) && Allowed(s, w, steps)
    requires Allowed(s, Run(s, w, steps), later)
    requires k < |Recorded(Run(s, w, steps), i)|
    requires l < |Recorded(Run(s, Run(s, w, steps), later), j)|
    requires Recorded(Run(s, w, steps), i)[k].author
          == Recorded(Run(s, Run(s, w, steps), later), j)[l].author
    requires Recorded(Run(s, w, steps), i)[k].author in HonestIds(s)
    ensures Recorded(Run(s, w, steps), i)[k].verdict
         == Recorded(Run(s, Run(s, w, steps), later), j)[l].verdict
  {
    var before := Run(s, w, steps);
    var after := Run(s, before, later);
    LawfulIsWired(s);
    ReachedInv(s, w, steps);
    RunKeepsInv(s, before, later);
    var h :| h in s.honest && h as int < |s.mission.ids|
      && s.mission.ids[h] == Recorded(before, i)[k].author;
    CountedIsCommitted(s, before, i, k, h);
    CountedIsCommitted(s, after, j, l, h);
  }

  /** A vote cast is never lost, withdrawn or changed, however often its member
      crashes: backers stay backers. */
  lemma BackersStay(s: Setup, w: World, steps: seq<Step>, later: seq<Step>)
    requires LawfulSetup(s) && Initial(s, w) && Allowed(s, w, steps)
    requires Allowed(s, Run(s, w, steps), later)
    ensures Backers(s, Run(s, w, steps)) <= Backers(s, Run(s, Run(s, w, steps), later))
  {
    var before := Run(s, w, steps);
    var after := Run(s, before, later);
    LawfulIsWired(s);
    ReachedInv(s, w, steps);
    RunKeepsInv(s, before, later);
    forall i | i in Backers(s, before)
      ensures i in Backers(s, after)
    {
      BackerIsCommitted(s, before, i);
      CommittedIsDurable(s, after, i);
    }
  }

  lemma BackerIsCommitted(s: Setup, w: World, i: u16)
    requires Wired(s.mission) && Inv(s, w) && i in Backers(s, w)
    ensures i in w.votes && VerdictOf(w.votes[i].verdict) == Some(Support)
  {
    assert NodeOk(s, w.votes, w.sealed, i, w.nodes[i]);
    OwnFrameReads(s, i, w.votes[i]);
  }

  // ---- nonces ----

  /** In no run do honest members seal two different frames under one nonce,
      below the counter's ceiling. */
  lemma NoncesNeverRepeat(s: Setup, w: World, steps: seq<Step>, e: Envelope, f: Envelope)
    requires LawfulSetup(s) && Initial(s, w) && Allowed(s, w, steps)
    requires e in Run(s, w, steps).sealed && f in Run(s, w, steps).sealed
    requires Sealing.NonceFor(e.author, e.sequence) == Sealing.NonceFor(f.author, f.sequence)
    requires e.sequence < U64_MAX
    ensures e == f
  {
    ReachedInv(s, w, steps);
    Sealing.NonceInjective(e.author, e.sequence, f.author, f.sequence);
  }

  // ---- one member's acts in a row ----

  /** What a list of acts puts on the air. */
  function SentBy(m: Mission, i: u16, n: Node, acts: seq<Act>): set<seq<byte>>
    requires i as int < |m.ids|
    decreases |acts|
  {
    if acts == [] then {}
    else
      var effect := Do(m, i, n, acts[0]);
      (if effect.sent.Some? then {effect.sent.value} else {}) + SentBy(m, i, effect.node, acts[1..])
  }

  /** What it seals. */
  function SealedBy(m: Mission, i: u16, n: Node, acts: seq<Act>): set<Envelope>
    requires i as int < |m.ids|
    decreases |acts|
  {
    if acts == [] then {}
    else
      var effect := Do(m, i, n, acts[0]);
      (if effect.sealed.Some? then {effect.sealed.value} else {})
      + SealedBy(m, i, effect.node, acts[1..])
  }

  function Takes(i: u16, acts: seq<Act>): seq<Step> {
    seq(|acts|, k requires 0 <= k < |acts| => Take(i, acts[k]))
  }

  lemma {:induction false} TakesRun(s: Setup, w: World, i: u16, acts: seq<Act>)
    requires i in s.honest && i in w.nodes && i as int < |s.mission.ids|
    requires forall k :: 0 <= k < |acts| && acts[k].Receive? ==> acts[k].frame in w.air
    ensures Allowed(s, w, Takes(i, acts))
    ensures Run(s, w, Takes(i, acts)).nodes == w.nodes[i := R.Acts(s.mission, i, w.nodes[i], acts)]
    ensures Run(s, w, Takes(i, acts)).air == w.air + SentBy(s.mission, i, w.nodes[i], acts)
    ensures Run(s, w, Takes(i, acts)).sealed == w.sealed + SealedBy(s.mission, i, w.nodes[i], acts)
    decreases |acts|
  {
    if acts != [] {
      var next := Next(s, w, Take(i, acts[0]));
      assert Takes(i, acts)[1..] == Takes(i, acts[1..]);
      TakesRun(s, next, i, acts[1..]);
    } else {
      assert w.nodes == w.nodes[i := w.nodes[i]];
    }
  }

  // ---- restarts ----

  ghost predicate AllWitnessOk(s: Setup, w: World) {
    forall i :: i in w.nodes ==> R.WitnessOk(s.mission, w.nodes[i].journal)
  }

  lemma StepKeepsWitnesses(s: Setup, w: World, step: Step)
    requires Wired(s.mission) && AllWitnessOk(s, w) && Permitted(s, w, step)
    ensures AllWitnessOk(s, Next(s, w, step))
  {
    if step.Take? {
      R.ActKeepsWitnesses(s.mission, step.member, w.nodes[step.member], step.act);
    }
  }

  lemma {:induction false} RunKeepsWitnesses(s: Setup, w: World, steps: seq<Step>)
    requires Wired(s.mission) && AllWitnessOk(s, w) && Allowed(s, w, steps)
    ensures AllWitnessOk(s, Run(s, w, steps))
    decreases |steps|
  {
    if steps != [] {
      StepKeepsWitnesses(s, w, steps[0]);
      RunKeepsWitnesses(s, Next(s, w, steps[0]), steps[1..]);
    }
  }

  lemma OutboxIsVote(s: Setup, w: World, i: u16)
    requires Wired(s.mission) && Inv(s, w) && i in w.nodes
    ensures FirstPending(w.nodes[i].journal).Some? ==>
      R.VoteOf(s.mission, i, FirstPending(w.nodes[i].journal).value)
  {
    assert NodeOk(s, w.votes, w.sealed, i, w.nodes[i]);
    OutboxIsGenuine(s, w.votes, i, w.nodes[i].journal);
    if i in w.votes {
      OwnFrameReads(s, i, w.votes[i]);
    }
  }

  /** At whatever point of a run an honest member went down, it comes back unless
      its journal has run under a later epoch, and its next life counts exactly
      the votes its journal had witnessed and its own, for what they say. */
  lemma RestartRecounts(
    s: Setup, w: World, steps: seq<Step>, i: u16, now: u64, order: seq<u16>)
    requires LawfulSetup(s) && Initial(s, w) && Allowed(s, w, steps)
    requires i in Run(s, w, steps).nodes && Run(s, w, steps).nodes[i].life == None
    requires CertainlyAfter(now, s.mission.subject.ConsultationCutoff())
    requires CertainlyBefore(now, s.mission.subject.DefaultExpiry())
    requires R.Each(order) && i as int < |s.mission.ids|
    requires forall a :: a in order <==> a in R.StartsWith(s.mission, i, Run(s, w, steps).nodes[i])
    ensures var n := Run(s, w, steps).nodes[i];
            var back := R.Acts(s.mission, i, n, [Restart, Freeze(now)] + R.Drains(order, now));
            (back.life.Some? <==> !RolledBack(s.mission, n.journal))
            && (back.life.Some? ==>
                 CaseMachine.Supporters(back.life.value.situation)
                 == R.Supporting(s.mission, R.StartsWith(s.mission, i, n), order)
                 && back.life.value.situation.voted == R.NamesOf(s.mission, order))
  {
    LawfulIsWired(s);
    ReachedInv(s, w, steps);
    RunKeepsWitnesses(s, w, steps);
    var n := Run(s, w, steps).nodes[i];
    OutboxIsVote(s, Run(s, w, steps), i);
    R.TallySurvives(s.mission, i, n, now, order);
  }
}
