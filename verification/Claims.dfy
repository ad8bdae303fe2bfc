/** Nothing is counted for this claim that was said about another: whatever a member
    has recorded, somebody framed it about this very subject. */
module Claims {
  import opened Basics
  import opened Contracts
  import opened Journal
  import opened CompactFrame
  import opened Member
  import opened Fleet
  import CaseMachine

  /** The envelope is about this mission's claim, and from its fleet. */
  predicate About(m: Mission, e: Envelope) {
    e.missionEpoch == m.epoch && e.event == m.event && e.revision == m.revision
    && e.caseId == m.caseId && e.startedAt == m.subject.startedAt && e.author as int < |m.ids|
  }

  /** The frame reads as this opinion: its author, stage and verdict, about this
      claim. */
  predicate Says(m: Mission, frame: seq<byte>, o: Opinion) {
    match m.wire.believes(frame)
    case None => false
    case Some(e) =>
      About(m, e) && o.author == m.ids[e.author] && o.subject == m.subject
      && e.stage == StageCode(o.stage) && e.verdict == VerdictCode(o.verdict)
  }

  /** Stages and verdicts have one code each, and no other byte is one. */
  lemma CodesExactly(code: byte, s: Stage, v: Verdict)
    ensures StageOf(code) == Some(s) <==> code == StageCode(s)
    ensures VerdictOf(code) == Some(v) <==> code == VerdictCode(v)
  {
  }

  /** Offering a frame changes the case, or is worth anything to learn, only if it is
      believed and is about this claim; and then it adds what it says, or nothing. */
  lemma AdmitsOnlyThisClaim(m: Mission, c: CaseMachine.CaseState, frame: seq<byte>, now: u64)
    ensures Admit(m, c, frame, now) != (c, NOTHING) ==>
      m.wire.believes(frame).Some? && About(m, m.wire.believes(frame).value)
    ensures var after := Admit(m, c, frame, now).0;
            (after.binding == c.binding
             || exists o :: after.binding == c.binding + [o] && Says(m, frame, o)
                            && o.stage == BindingSupport)
            && (after.independent == c.independent
                || exists o :: after.independent == c.independent + [o] && Says(m, frame, o))
  {
    var after := Admit(m, c, frame, now).0;
    if after != c {
      var e := m.wire.believes(frame).value;
      var o := Opinion(m.ids[e.author], m.subject, StageOf(e.stage).value, VerdictOf(e.verdict).value);
      CodesExactly(e.stage, o.stage, o.verdict);
      CodesExactly(e.verdict, o.stage, o.verdict);
      assert Says(m, frame, o);
    }
  }

  // ---- over whole runs ----

  /** Somebody has framed these bytes: they were on the air, or an honest member
      sealed them. */
  ghost predicate Framed(m: Mission, air: set<seq<byte>>, sealed: set<Envelope>, frame: seq<byte>) {
    frame in air || exists e :: e in sealed && frame == m.wire.frame(e)
  }

  ghost predicate Said(m: Mission, air: set<seq<byte>>, sealed: set<Envelope>, o: Opinion) {
    exists frame :: Framed(m, air, sealed, frame) && Says(m, frame, o)
  }

  ghost predicate AllSaid(m: Mission, air: set<seq<byte>>, sealed: set<Envelope>, said: seq<Opinion>) {
    forall k :: 0 <= k < |said| ==> Said(m, air, sealed, said[k])
  }

  ghost predicate CaseSaid(
    m: Mission, air: set<seq<byte>>, sealed: set<Envelope>, c: CaseMachine.CaseState)
  {
    AllSaid(m, air, sealed, c.binding) && AllSaid(m, air, sealed, c.independent)
  }

  ghost predicate JournalFramed(m: Mission, air: set<seq<byte>>, sealed: set<Envelope>, j: State) {
    (forall a :: a in j.witnessed ==> Framed(m, air, sealed, j.witnessed[a]))
    && (forall s :: s in j.pending ==> Framed(m, air, sealed, j.pending[s].bytes))
  }

  ghost predicate LifeFramed(m: Mission, air: set<seq<byte>>, sealed: set<Envelope>, l: Life) {
    CaseSaid(m, air, sealed, l.situation)
    && (forall a :: a in l.early ==> Framed(m, air, sealed, l.early[a]))
    && (l.ready.Some? ==> Framed(m, air, sealed, l.ready.value))
  }

  /** Everything a member keeps or has recorded was framed by somebody. */
  ghost predicate NodeFramed(m: Mission, air: set<seq<byte>>, sealed: set<Envelope>, n: Node) {
    JournalFramed(m, air, sealed, n.journal)
    && (n.life.Some? ==> LifeFramed(m, air, sealed, n.life.value))
  }

  lemma SaidStays(m: Mission, air: set<seq<byte>>, sealed: set<Envelope>,
                  more: set<seq<byte>>, others: set<Envelope>, said: seq<Opinion>)
    requires air <= more && sealed <= others && AllSaid(m, air, sealed, said)
    ensures AllSaid(m, more, others, said)
  {
    forall k | 0 <= k < |said|
      ensures Said(m, more, others, said[k])
    {
      assert Said(m, air, sealed, said[k]);
      var frame :| Framed(m, air, sealed, frame) && Says(m, frame, said[k]);
      assert Framed(m, more, others, frame);
    }
  }

  lemma FramedStays(m: Mission, air: set<seq<byte>>, sealed: set<Envelope>,
                    more: set<seq<byte>>, others: set<Envelope>, n: Node)
    requires air <= more && sealed <= others && NodeFramed(m, air, sealed, n)
    ensures NodeFramed(m, more, others, n)
  {
    if n.life.Some? {
      SaidStays(m, air, sealed, more, others, n.life.value.situation.binding);
      SaidStays(m, air, sealed, more, others, n.life.value.situation.independent);
    }
  }

  lemma AdmitKeepsSaid(m: Mission, air: set<seq<byte>>, sealed: set<Envelope>,
                       c: CaseMachine.CaseState, frame: seq<byte>, now: u64)
    requires CaseSaid(m, air, sealed, c) && Framed(m, air, sealed, frame)
    ensures CaseSaid(m, air, sealed, Admit(m, c, frame, now).0)
  {
    AdmitsOnlyThisClaim(m, c, frame, now);
  }

  lemma FirstIsFramed(m: Mission, air: set<seq<byte>>, sealed: set<Envelope>, j: State)
    requires JournalFramed(m, air, sealed, j)
    ensures FirstPending(j).Some? ==> Framed(m, air, sealed, FirstPending(j).value)
  {
  }

  lemma RememberKeepsFramed(m: Mission, air: set<seq<byte>>, sealed: set<Envelope>, j: State,
                            l: Learned, frame: seq<byte>, durable: bool)
    requires JournalFramed(m, air, sealed, j) && Framed(m, air, sealed, frame)
    ensures JournalFramed(m, air, sealed, Remember(m, j, l, frame, durable))
  {
  }

  lemma RebornFramed(m: Mission, air: set<seq<byte>>, sealed: set<Envelope>, i: u16, j: State)
    requires i as int < |m.ids| && JournalFramed(m, air, sealed, j)
    ensures LifeFramed(m, air, sealed, Reborn(m, i, j))
  {
    FirstIsFramed(m, air, sealed, j);
  }

  /** What the act adds to what was sealed. */
  ghost function WithSealed(sealed: set<Envelope>, effect: Effect): set<Envelope> {
    if effect.sealed.Some? then sealed + {effect.sealed.value} else sealed
  }

  lemma UtterFramed(m: Mission, air: set<seq<byte>>, sealed: set<Envelope>, i: u16, n: Node, l: Life,
                    stage: byte, verdict: byte, heard: eight, round: RoundId, reserves: bool)
    requires i as int < |m.ids| && n.life == Some(l) && NodeFramed(m, air, sealed, n)
    ensures var effect := Doing(m, i, n, l, Utter(stage, verdict, heard, round, reserves));
            NodeFramed(m, air, WithSealed(sealed, effect), effect.node)
  {
    var effect := Doing(m, i, n, l, Utter(stage, verdict, heard, round, reserves));
    FramedStays(m, air, sealed, air, WithSealed(sealed, effect), n);
  }

  lemma CastFramed(m: Mission, air: set<seq<byte>>, sealed: set<Envelope>, i: u16, n: Node, l: Life,
                   choice: Verdict, heard: eight, round: RoundId, reserves: bool, commits: bool)
    requires i as int < |m.ids| && n.life == Some(l) && NodeFramed(m, air, sealed, n)
    ensures var effect := Doing(m, i, n, l, Cast(choice, heard, round, reserves, commits));
            NodeFramed(m, air, WithSealed(sealed, effect), effect.node)
  {
    var effect := Doing(m, i, n, l, Cast(choice, heard, round, reserves, commits));
    FramedStays(m, air, sealed, air, WithSealed(sealed, effect), n);
    FirstIsFramed(m, air, sealed, n.journal);
  }

  lemma TakesInFramed(m: Mission, air: set<seq<byte>>, sealed: set<Envelope>, n: Node, l: Life,
                      frame: seq<byte>, now: u64, durable: bool)
    requires n.life == Some(l) && NodeFramed(m, air, sealed, n) && Framed(m, air, sealed, frame)
    ensures NodeFramed(m, air, sealed, Received(m, n, l, frame, now, durable))
    ensures forall a :: a in l.early && l.early[a] == frame ==>
      NodeFramed(m, air, sealed, Drained(m, n, l, a, now, durable))
  {
    AdmitKeepsSaid(m, air, sealed, l.situation, frame, now);
    RememberKeepsFramed(m, air, sealed, n.journal, Admit(m, l.situation, frame, now).1, frame, durable);
  }

  lemma DoKeepsFramed(m: Mission, air: set<seq<byte>>, sealed: set<Envelope>, i: u16, n: Node, act: Act)
    requires i as int < |m.ids| && NodeFramed(m, air, sealed, n)
    requires act.Receive? ==> act.frame in air
    ensures var effect := Do(m, i, n, act); NodeFramed(m, air, WithSealed(sealed, effect), effect.node)
  {
    if n.life.Some? {
      var l := n.life.value;
      match act
      case Utter(stage, verdict, heard, round, reserves) =>
        UtterFramed(m, air, sealed, i, n, l, stage, verdict, heard, round, reserves);
      case Cast(choice, heard, round, reserves, commits) =>
        CastFramed(m, air, sealed, i, n, l, choice, heard, round, reserves, commits);
      case AdmitOwn(now) =>
        if l.ready.Some? {
          AdmitKeepsSaid(m, air, sealed, l.situation, l.ready.value, now);
        }
      case Receive(frame, now, durable) => TakesInFramed(m, air, sealed, n, l, frame, now, durable);
      case Drain(author, now, durable) =>
        if author in l.early {
          TakesInFramed(m, air, sealed, n, l, l.early[author], now, durable);
        }
      case _ =>
    } else if act == Restart {
      RebornFramed(m, air, sealed, i, Perform(n.journal, EnterEpoch(m.epoch)).0);
    }
  }

  ghost predicate WorldFramed(s: Setup, w: World) {
    forall i :: i in w.nodes ==> NodeFramed(s.mission, w.air, w.sealed, w.nodes[i])
  }

  lemma StepKeepsFramed(s: Setup, w: World, step: Step)
    requires WorldFramed(s, w) && Permitted(s, w, step)
    ensures WorldFramed(s, Next(s, w, step))
  {
    var next := Next(s, w, step);
    forall j | j in next.nodes
      ensures NodeFramed(s.mission, next.air, next.sealed, next.nodes[j])
    {
      if step.Take? && j == step.member {
        DoKeepsFramed(s.mission, w.air, w.sealed, j, w.nodes[j], step.act);
        FramedStays(s.mission, w.air, next.sealed, next.air, next.sealed, next.nodes[j]);
      } else {
        FramedStays(s.mission, w.air, w.sealed, next.air, next.sealed, w.nodes[j]);
      }
    }
  }

  lemma {:induction false} RunKeepsFramed(s: Setup, w: World, steps: seq<Step>)
    requires WorldFramed(s, w) && Allowed(s, w, steps)
    ensures WorldFramed(s, Run(s, w, steps))
    decreases |steps|
  {
    if steps != [] {
      StepKeepsFramed(s, w, steps[0]);
      RunKeepsFramed(s, Next(s, w, steps[0]), steps[1..]);
    }
  }

  /** In every run, whatever a member has recorded, opinion or vote, by an honest
      author or a faulty one, was framed by somebody about this very claim: mission
      epoch, event, revision, case and start. */
  lemma RecordedIsAboutThisClaim(s: Setup, w: World, steps: seq<Step>, i: u16)
    requires Initial(s, w) && Allowed(s, w, steps)
    requires i in Run(s, w, steps).nodes && Run(s, w, steps).nodes[i].life.Some?
    ensures CaseSaid(s.mission, Run(s, w, steps).air, Run(s, w, steps).sealed,
                     Run(s, w, steps).nodes[i].life.value.situation)
  {
    RunKeepsFramed(s, w, steps);
    assert NodeFramed(s.mission, Run(s, w, steps).air, Run(s, w, steps).sealed,
                      Run(s, w, steps).nodes[i]);
  }
}
