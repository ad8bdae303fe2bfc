/** That approval is within reach: when everybody is honest, comes up and is
    heard, any member sees the whole fleet's support. */
module FleetLiveness {
  import opened Basics
  import opened Postcard
  import opened Contracts
  import opened CompactFrame
  import opened Quorum
  import opened Member
  import opened Fleet
  import opened FleetSafety
  import CaseMachine
  import R = Recount

  lemma OneStep(s: Setup, w: World, step: Step)
    requires Permitted(s, w, step)
    ensures Allowed(s, w, [step]) && Run(s, w, [step]) == Next(s, w, step)
  {
    assert [step][1..] == [];
  }

  /** One more step at the end of a run. */
  lemma Extend(s: Setup, w: World, steps: seq<Step>, step: Step) returns (more: seq<Step>)
    requires Allowed(s, w, steps) && Permitted(s, Run(s, w, steps), step)
    ensures Allowed(s, w, more) && Run(s, w, more) == Next(s, Run(s, w, steps), step)
  {
    more := steps + [step];
    OneStep(s, Run(s, w, steps), step);
    RunConcat(s, w, steps, [step]);
  }

  // ---- one member votes ----

  /** A member that is down, has done nothing yet, and may start. */
  ghost predicate Unused(s: Setup, n: Node) {
    n.life == None && !RolledBack(s.mission, n.journal)
    && n.journal.locks == {} && n.journal.pending == map[] && n.journal.witnessed == map[]
  }

  /** The member is up, takes votes, and has counted none. */
  ghost predicate Collecting(s: Setup, n: Node) {
    n.life.Some?
    && n.life.value.situation == CaseMachine.Opened(s.mission.subject).(phase := CaseMachine.CollectingVotes)
  }

  function SupportOf(s: Setup, j: u16, sequence: u64): Envelope {
    EnvelopeOf(s.mission, j, StageCode(BindingSupport), VerdictCode(Support), sequence, Nobody(),
               RoundId(0xFFFF, 0))
  }

  function Nobody(): eight {
    seq(8, _ => 0)
  }

  /** The frame reads as member `j`'s vote of support. */
  ghost predicate Supports(s: Setup, j: u16, frame: seq<byte>) {
    R.VoteOf(s.mission, j, frame) && R.VerdictIn(s.mission, j, frame) == Support
  }

  lemma SupportReads(s: Setup, j: u16, sequence: u64)
    requires Wired(s.mission) && j as int < |s.mission.ids|
    ensures Supports(s, j, s.mission.wire.frame(SupportOf(s, j, sequence)))
  {
    OwnFrameReads(s, j, SupportOf(s, j, sequence));
  }

  lemma ComesUp(s: Setup, j: u16, n: Node, now: u64) returns (up: Node)
    requires j as int < |s.mission.ids| && Unused(s, n)
    requires CertainlyAfter(now, s.mission.subject.ConsultationCutoff())
    ensures up == Do(s.mission, j, Do(s.mission, j, n, Restart).node, Freeze(now)).node
    ensures Collecting(s, up) && up.journal.locks == {} && up.life.value.ready == None
    ensures !Do(s.mission, j, n, Restart).voted && Do(s.mission, j, n, Restart).sent == None
  {
    up := Do(s.mission, j, Do(s.mission, j, n, Restart).node, Freeze(now)).node;
  }

  const CAST: Act := Cast(Support, seq(8, _ => 0), RoundId(0xFFFF, 0), true, true)

  lemma Casts(s: Setup, j: u16, n: Node)
    requires Wired(s.mission) && j as int < |s.mission.ids| && Collecting(s, n) && n.journal.locks == {}
    ensures var effect := Do(s.mission, j, n, CAST);
            effect.sent == None && effect.node.life.Some?
            && effect.node.life.value.situation == n.life.value.situation
            && effect.node.life.value.ready.Some?
            && Supports(s, j, effect.node.life.value.ready.value)
  {
    SupportReads(s, j, n.journal.nextSequence);
  }

  /** The step belongs to member `j`, and only its node changes. */
  lemma OnlyMine(s: Setup, w: World, j: u16, act: Act)
    requires Permitted(s, w, Take(j, act))
    ensures var v := Next(s, w, Take(j, act));
            v.nodes == w.nodes[j := Do(s.mission, j, w.nodes[j], act).node] && w.air <= v.air
            && (Do(s.mission, j, w.nodes[j], act).sent.Some? ==>
                 Do(s.mission, j, w.nodes[j], act).sent.value in v.air)
  {
  }

  /** Member `j` has voted and its vote is on the air; it has counted nothing. */
  ghost predicate OnAir(s: Setup, w: World, j: u16) {
    j in w.nodes && Collecting(s, w.nodes[j])
    && w.nodes[j].life.value.ready.Some? && Supports(s, j, w.nodes[j].life.value.ready.value)
    && w.nodes[j].life.value.ready.value in w.air
  }

  ghost predicate OthersAlone(w: World, v: World, j: u16) {
    v.nodes.Keys == w.nodes.Keys && forall k :: k in w.nodes && k != j ==> v.nodes[k] == w.nodes[k]
  }

  /** Up, past the cutoff, voted, sent: four acts that leave everybody else as they
      were. */
  lemma MemberVotes(s: Setup, w: World, j: u16, now: u64) returns (steps: seq<Step>)
    requires Wired(s.mission) && j in s.honest && j in w.nodes && j as int < |s.mission.ids|
    requires Unused(s, w.nodes[j]) && CertainlyAfter(now, s.mission.subject.ConsultationCutoff())
    ensures Allowed(s, w, steps) && OnAir(s, Run(s, w, steps), j)
    ensures w.air <= Run(s, w, steps).air
    ensures OthersAlone(w, Run(s, w, steps), j)
  {
    var up := ComesUp(s, j, w.nodes[j], now);
    steps := [Take(j, Restart)];
    OneStep(s, w, Take(j, Restart));
    OnlyMine(s, w, j, Restart);
    var w1 := Run(s, w, steps);
    OnlyMine(s, w1, j, Freeze(now));
    steps := Extend(s, w, steps, Take(j, Freeze(now)));
    var w2 := Run(s, w, steps);
    assert w2.nodes == w.nodes[j := up];
    Casts(s, j, up);
    OnlyMine(s, w2, j, CAST);
    steps := Extend(s, w, steps, Take(j, CAST));
    var w3 := Run(s, w, steps);
    OnlyMine(s, w3, j, Transmit);
    steps := Extend(s, w, steps, Take(j, Transmit));
    assert Run(s, w, steps).nodes == w.nodes[j := w3.nodes[j]];
  }

  /** Everybody votes, one after another. */
  lemma {:induction false} EverybodyVotes(s: Setup, w: World, members: set<u16>, now: u64)
    returns (steps: seq<Step>)
    requires Wired(s.mission) && members <= s.honest && s.honest <= w.nodes.Keys
    requires forall j :: j in s.honest ==> j as int < |s.mission.ids|
    requires forall j :: j in members ==> Unused(s, w.nodes[j])
    requires CertainlyAfter(now, s.mission.subject.ConsultationCutoff())
    ensures Allowed(s, w, steps)
    ensures forall j :: j in members ==> OnAir(s, Run(s, w, steps), j)
    ensures Run(s, w, steps).nodes.Keys >= w.nodes.Keys && w.air <= Run(s, w, steps).air
    ensures forall k :: k in w.nodes && k !in members ==> Run(s, w, steps).nodes[k] == w.nodes[k]
    decreases |members|
  {
    if members == {} {
      steps := [];
    } else {
      var j :| j in members;
      var others := members - {j};
      var first := MemberVotes(s, w, j, now);
      var mid := Run(s, w, first);
      var rest := EverybodyVotes(s, mid, others, now);
      RunConcat(s, w, first, rest);
      steps := first + rest;
      StillOnAir(s, mid, Run(s, mid, rest), j);
    }
  }

  lemma StillOnAir(s: Setup, w: World, v: World, j: u16)
    requires OnAir(s, w, j) && w.air <= v.air && j in v.nodes && v.nodes[j] == w.nodes[j]
    ensures OnAir(s, v, j)
  {
  }

  // ---- one member counts ----

  /** The member takes votes now and has counted exactly these, all of support. */
  ghost predicate HasCounted(s: Setup, n: Node, ids: set<text>) {
    n.life.Some? && n.life.value.situation.subject == s.mission.subject
    && n.life.value.situation.phase == CaseMachine.CollectingVotes
    && n.life.value.situation.expiresAt == s.mission.subject.DefaultExpiry()
    && n.life.value.situation.voted == ids
    && CaseMachine.Supporters(n.life.value.situation) == ids
  }

  lemma CountsOne(s: Setup, c: CaseMachine.CaseState, a: u16, frame: seq<byte>, now: u64)
    requires a as int < |s.mission.ids| && Supports(s, a, frame) && c.subject == s.mission.subject
    requires c.phase == CaseMachine.CollectingVotes && CertainlyBefore(now, c.expiresAt)
    requires s.mission.ids[a] !in c.voted
    ensures var after := Admit(s.mission, c, frame, now).0;
            after.subject == c.subject && after.phase == c.phase && after.expiresAt == c.expiresAt
            && after.voted == c.voted + {s.mission.ids[a]}
            && CaseMachine.Supporters(after) == CaseMachine.Supporters(c) + {s.mission.ids[a]}
  {
    R.CountOne(s.mission, c, a, frame, now);
    R.SupportersSnoc(c, Opinion(s.mission.ids[a], s.mission.subject, BindingSupport, Support));
  }

  /** A vote of support heard in time is counted, once. */
  lemma HearsOne(s: Setup, w: World, i: u16, ids: set<text>, a: u16, frame: seq<byte>, now: u64)
    requires i in s.honest && i in w.nodes && i as int < |s.mission.ids|
    requires a as int < |s.mission.ids| && Supports(s, a, frame) && frame in w.air
    requires HasCounted(s, w.nodes[i], ids) && s.mission.ids[a] !in ids
    requires CertainlyBefore(now, s.mission.subject.DefaultExpiry())
    ensures Permitted(s, w, Take(i, Receive(frame, now, true)))
    ensures var v := Next(s, w, Take(i, Receive(frame, now, true)));
            v.air == w.air && i in v.nodes && HasCounted(s, v.nodes[i], ids + {s.mission.ids[a]})
  {
    CountsOne(s, w.nodes[i].life.value.situation, a, frame, now);
    OnlyMine(s, w, i, Receive(frame, now, true));
  }

  /** The members' votes of support are on the air, and none of them counted. */
  ghost predicate Waiting(
    s: Setup, air: set<seq<byte>>, ids: set<text>, members: set<u16>, frames: map<u16, seq<byte>>)
  {
    members <= frames.Keys
    && forall a :: a in members ==>
         a as int < |s.mission.ids| && Supports(s, a, frames[a]) && frames[a] in air
         && s.mission.ids[a] !in ids
  }

  lemma OneLess(s: Setup, air: set<seq<byte>>, ids: set<text>, members: set<u16>,
                frames: map<u16, seq<byte>>, a: u16)
    requires Wired(s.mission) && Waiting(s, air, ids, members, frames) && a in members
    ensures Waiting(s, air, ids + {s.mission.ids[a]}, members - {a}, frames)
    ensures ids + Named(s.mission.ids, members)
         == ids + {s.mission.ids[a]} + Named(s.mission.ids, members - {a})
  {
    assert members == members - {a} + {a};
  }

  lemma {:induction false} HearsAll(
    s: Setup, w: World, i: u16, ids: set<text>, members: set<u16>, frames: map<u16, seq<byte>>, now: u64)
    returns (steps: seq<Step>)
    requires Wired(s.mission) && i in s.honest && i in w.nodes && i as int < |s.mission.ids|
    requires HasCounted(s, w.nodes[i], ids) && Waiting(s, w.air, ids, members, frames)
    requires CertainlyBefore(now, s.mission.subject.DefaultExpiry())
    ensures Allowed(s, w, steps) && i in Run(s, w, steps).nodes
    ensures HasCounted(s, Run(s, w, steps).nodes[i], ids + Named(s.mission.ids, members))
    decreases |members|
  {
    if members == {} {
      steps := [];
      assert ids + Named(s.mission.ids, members) == ids;
    } else {
      var a :| a in members;
      var step := Take(i, Receive(frames[a], now, true));
      HearsOne(s, w, i, ids, a, frames[a], now);
      OneLess(s, w.air, ids, members, frames, a);
      OneStep(s, w, step);
      var next := Run(s, w, [step]);
      var rest := HearsAll(s, next, i, ids + {s.mission.ids[a]}, members - {a}, frames, now);
      RunConcat(s, w, [step], rest);
      steps := [step] + rest;
    }
  }

  /** Its own vote is counted where it is built. */
  lemma CountsItsOwn(s: Setup, w: World, i: u16, now: u64)
    requires i in s.honest && i as int < |s.mission.ids| && OnAir(s, w, i)
    requires CertainlyBefore(now, s.mission.subject.DefaultExpiry())
    ensures Permitted(s, w, Take(i, AdmitOwn(now)))
    ensures var v := Next(s, w, Take(i, AdmitOwn(now)));
            v.air == w.air && i in v.nodes && HasCounted(s, v.nodes[i], {s.mission.ids[i]})
  {
    var c := w.nodes[i].life.value.situation;
    assert CaseMachine.Supporters(c) == {};
    CountsOne(s, c, i, w.nodes[i].life.value.ready.value, now);
    OnlyMine(s, w, i, AdmitOwn(now));
  }

  // ---- approval ----

  /** Once everybody's vote is on the air, any one member can count them all. */
  lemma CountsEverybody(s: Setup, w: World, i: u16, now: u64) returns (steps: seq<Step>)
    requires Wired(s.mission) && i in s.honest
    requires forall j :: j in s.honest ==> j as int < |s.mission.ids| && OnAir(s, w, j)
    requires CertainlyBefore(now, s.mission.subject.DefaultExpiry())
    ensures Allowed(s, w, steps) && i in Run(s, w, steps).nodes
    ensures HasCounted(s, Run(s, w, steps).nodes[i], HonestIds(s))
  {
    CountsItsOwn(s, w, i, now);
    var own := Take(i, AdmitOwn(now));
    var counted := Next(s, w, own);
    var frames := map j | j in s.honest :: w.nodes[j].life.value.ready.value;
    var others := s.honest - {i};
    forall a | a in others
      ensures Supports(s, a, frames[a]) && frames[a] in counted.air
      ensures s.mission.ids[a] !in {s.mission.ids[i]}
    {
      assert OnAir(s, w, a);
    }
    var hearing := HearsAll(s, counted, i, {s.mission.ids[i]}, others, frames, now);
    OneStep(s, w, own);
    RunConcat(s, w, [own], hearing);
    steps := [own] + hearing;
    assert {s.mission.ids[i]} + Named(s.mission.ids, others) == HonestIds(s);
  }

  lemma CountedApproves(s: Setup, w: World, i: u16)
    requires LawfulSetup(s) && HonestIds(s) == s.policy.competences.Keys
    requires i in w.nodes && HasCounted(s, w.nodes[i], HonestIds(s))
    ensures SeesApproval(s, w, i)
  {
    WholeFleetApproves(s.policy);
  }

  /** Approval is within reach of every member of every fleet without a faulty
      one whose journals allow it to start: there is a run at whose end it sees
      the whole fleet's support. */
  lemma ApprovalIsReachable(s: Setup, w: World, i: u16, now: u64) returns (steps: seq<Step>)
    requires LawfulSetup(s) && Initial(s, w) && i in s.honest
    requires HonestIds(s) == s.policy.competences.Keys
    requires forall j :: j in s.honest ==> !RolledBack(s.mission, w.nodes[j].journal)
    requires CertainlyAfter(now, s.mission.subject.ConsultationCutoff())
    requires CertainlyBefore(now, s.mission.subject.DefaultExpiry())
    ensures Allowed(s, w, steps) && SeesApproval(s, Run(s, w, steps), i)
  {
    LawfulIsWired(s);
    var voting := EverybodyVotes(s, w, s.honest, now);
    var counting := CountsEverybody(s, Run(s, w, voting), i, now);
    RunConcat(s, w, voting, counting);
    steps := voting + counting;
    CountedApproves(s, Run(s, w, steps), i);
  }
}
