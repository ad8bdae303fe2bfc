/** Stage transitions for one subject: which opinions arrived before the cutoff,
    whether it has been frozen, and who has committed a binding vote. */
module CaseMachine {
  import opened Basics
  import opened Postcard
  import opened Contracts

  datatype TransitionError =
    | DifferentSubject
    | WrongStageForPhase
    | ConsultationClosed
    | CutoffNotReached
    | Expired
    | TimeUncertain
    | AlreadyVoted

  datatype Phase = Consulting | CollectingVotes

  datatype CaseState = CaseState(
    subject: Subject,
    expiresAt: u64,
    phase: Phase,
    independent: seq<Opinion>,
    binding: seq<Opinion>,
    voted: set<text>)

  function Opened(subject: Subject): CaseState {
    CaseState(subject, subject.DefaultExpiry(), Consulting, [], [], {})
  }

  predicate Heard(opinions: seq<Opinion>, author: text, stage: Stage) {
    exists i :: 0 <= i < |opinions| && opinions[i].author == author && opinions[i].stage == stage
  }

  /** Admit an utterance at local time `now`, or say why not. */
  function Accepted(c: CaseState, o: Opinion, now: u64): (CaseState, Result<(), TransitionError>) {
    if o.subject != c.subject then (c, Err(DifferentSubject))
    else if CertainlyAfter(now, c.expiresAt) then (c, Err(Expired))
    else if c.phase == Consulting then
      if o.stage == BindingSupport then (c, Err(WrongStageForPhase))
      else if Heard(c.independent, o.author, o.stage) then (c, Ok(()))
      else (c.(independent := c.independent + [o]), Ok(()))
    else if o.stage != BindingSupport then (c, Err(ConsultationClosed))
    else if UncertainAbout(now, c.expiresAt) then (c, Err(TimeUncertain))
    else if o.author in c.voted then (c, Err(AlreadyVoted))
    else (c.(voted := c.voted + {o.author}, binding := c.binding + [o]), Ok(()))
  }

  function Closed(c: CaseState, now: u64): (CaseState, Result<(), TransitionError>) {
    if c.phase == CollectingVotes then (c, Err(ConsultationClosed))
    else if !CertainlyAfter(now, c.subject.ConsultationCutoff()) then (c, Err(CutoffNotReached))
    else (c.(phase := CollectingVotes), Ok(()))
  }

  /** Authors of binding votes that support the claim. */
  function Supporters(c: CaseState): set<text> {
    set i | 0 <= i < |c.binding| && c.binding[i].verdict == Support :: c.binding[i].author
  }

  method AlreadyHeard(opinions: seq<Opinion>, opinion: Opinion) returns (already: bool)
    ensures already == Heard(opinions, opinion.author, opinion.stage)
  {
    already := false;
    for i := 0 to |opinions|
      invariant already == Heard(opinions[..i], opinion.author, opinion.stage)
    {
      HeardSnoc(opinions, i, opinion.author, opinion.stage);
      if opinions[i].author == opinion.author && opinions[i].stage == opinion.stage {
        already := true;
      }
    }
    assert opinions[..|opinions|] == opinions;
  }

  class Case {
    const subject: Subject
    const expiresAt: u64
    var phase: Phase
    var independent: seq<Opinion>
    var binding: seq<Opinion>
    var voted: set<text>

    function Model(): CaseState
      reads this
    {
      CaseState(subject, expiresAt, phase, independent, binding, voted)
    }

    constructor OpenUntil(subject: Subject, expiresAt: u64)
      ensures Model() == Opened(subject).(expiresAt := expiresAt)
    {
      this.subject, this.expiresAt := subject, expiresAt;
      phase, independent, binding, voted := Consulting, [], [], {};
    }

    method CloseConsultation(now: u64) returns (r: Result<(), TransitionError>)
      modifies this`phase
      ensures (Model(), r) == Closed(old(Model()), now)
    {
      if phase == CollectingVotes {
        return Err(ConsultationClosed);
      }
      if !CertainlyAfter(now, subject.ConsultationCutoff()) {
        return Err(CutoffNotReached);
      }
      phase := CollectingVotes;
      return Ok(());
    }

    method Accept(opinion: Opinion, now: u64) returns (r: Result<(), TransitionError>)
      modifies this`independent, this`binding, this`voted
      ensures (Model(), r) == Accepted(old(Model()), opinion, now)
    {
      if opinion.subject != subject {
        return Err(DifferentSubject);
      }
      if CertainlyAfter(now, expiresAt) {
        return Err(Expired);
      }
      match (phase, opinion.stage)
      case (Consulting, BindingSupport) => return Err(WrongStageForPhase);
      case (Consulting, _) =>
        var already := AlreadyHeard(independent, opinion);
        if !already {
          independent := independent + [opinion];
        }
        return Ok(());
      case (CollectingVotes, BindingSupport) =>
        if UncertainAbout(now, expiresAt) {
          return Err(TimeUncertain);
        }
        if opinion.author in voted {
          return Err(AlreadyVoted);
        }
        voted := voted + {opinion.author};
        binding := binding + [opinion];
        return Ok(());
      case (CollectingVotes, _) => return Err(ConsultationClosed);
    }
  }

  lemma HeardSnoc(opinions: seq<Opinion>, i: nat, author: text, stage: Stage)
    requires i < |opinions|
    ensures Heard(opinions[..i + 1], author, stage)
        <==> Heard(opinions[..i], author, stage)
             || (opinions[i].author == author && opinions[i].stage == stage)
  {
    var shorter, longer := opinions[..i], opinions[..i + 1];
    if Heard(shorter, author, stage) {
      var k :| 0 <= k < i && shorter[k].author == author && shorter[k].stage == stage;
      assert longer[k] == shorter[k];
    }
    if opinions[i].author == author && opinions[i].stage == stage {
      assert longer[i] == opinions[i];
    }
    if Heard(longer, author, stage) {
      var k :| 0 <= k <= i && longer[k].author == author && longer[k].stage == stage;
      if k < i {
        assert shorter[k] == longer[k];
      }
    }
  }

  // ---- whole runs ----

  datatype Event = Utter(opinion: Opinion, now: u64) | Close(now: u64)

  function Step(c: CaseState, e: Event): CaseState {
    match e
    case Utter(o, now) => Accepted(c, o, now).0
    case Close(now) => Closed(c, now).0
  }

  function Run(c: CaseState, events: seq<Event>): CaseState
    decreases |events|
  {
    if events == [] then c else Run(Step(c, events[0]), events[1..])
  }

  /** A run goes on where the run before its last event ended. */
  lemma {:induction false} RunSnoc(c: CaseState, events: seq<Event>, e: Event)
    ensures Run(c, events + [e]) == Step(Run(c, events), e)
    decreases |events|
  {
    var all := events + [e];
    if events == [] {
      assert all == [e] && all[1..] == [];
    } else {
      assert all[0] == events[0] && all[1..] == events[1..] + [e];
      RunSnoc(Step(c, events[0]), events[1..], e);
    }
  }

  function Authors(binding: seq<Opinion>): set<text> {
    set i | 0 <= i < |binding| :: binding[i].author
  }

  /** One opinion an author and stage; one vote an author, and the voters are
      exactly those recorded as having voted; no vote before the freeze. */
  ghost predicate Lawful(c: CaseState) {
    (forall i, j :: 0 <= i < j < |c.independent| ==>
      c.independent[i].author != c.independent[j].author
      || c.independent[i].stage != c.independent[j].stage)
    && (forall i, j :: 0 <= i < j < |c.binding| ==> c.binding[i].author != c.binding[j].author)
    && c.voted == Authors(c.binding)
    && (forall i :: 0 <= i < |c.independent| ==>
      c.independent[i].stage != BindingSupport && c.independent[i].subject == c.subject)
    && (forall i :: 0 <= i < |c.binding| ==>
      c.binding[i].stage == BindingSupport && c.binding[i].subject == c.subject)
    && (c.phase == Consulting ==> c.binding == [])
  }

  lemma AuthorsSnoc(binding: seq<Opinion>, o: Opinion)
    ensures Authors(binding + [o]) == Authors(binding) + {o.author}
  {
    var all := binding + [o];
    assert all[|binding|] == o;
    forall a | a in Authors(binding)
      ensures a in Authors(all)
    {
      var i :| 0 <= i < |binding| && binding[i].author == a;
      assert all[i].author == a;
    }
  }

  lemma VoteLawful(c: CaseState, o: Opinion)
    requires Lawful(c) && c.phase == CollectingVotes && o.author !in c.voted
    requires o.stage == BindingSupport && o.subject == c.subject
    ensures Lawful(c.(voted := c.voted + {o.author}, binding := c.binding + [o]))
  {
    AuthorsSnoc(c.binding, o);
    forall i | 0 <= i < |c.binding|
      ensures c.binding[i].author != o.author
    {
      assert c.binding[i].author in c.voted;
    }
  }

  lemma OpinionLawful(c: CaseState, o: Opinion)
    requires Lawful(c) && c.phase == Consulting && !Heard(c.independent, o.author, o.stage)
    requires o.stage != BindingSupport && o.subject == c.subject
    ensures Lawful(c.(independent := c.independent + [o]))
  {
  }

  lemma StepLawful(c: CaseState, e: Event)
    requires Lawful(c)
    ensures Lawful(Step(c, e))
    ensures Step(c, e).subject == c.subject && Step(c, e).expiresAt == c.expiresAt
    ensures c.phase == CollectingVotes ==>
      Step(c, e).phase == CollectingVotes && Step(c, e).independent == c.independent
    ensures c.binding <= Step(c, e).binding
  {
    if e.Utter? && Step(c, e) != c {
      if c.phase == Consulting {
        OpinionLawful(c, e.opinion);
      } else {
        VoteLawful(c, e.opinion);
      }
    }
  }

  /** In every run the frozen opinions never change once frozen, nobody's
      opinion or vote counts twice, and a recorded vote is never altered. */
  lemma {:induction false} RunLawful(c: CaseState, events: seq<Event>)
    requires Lawful(c)
    ensures Lawful(Run(c, events))
    ensures Run(c, events).subject == c.subject && Run(c, events).expiresAt == c.expiresAt
    ensures c.phase == CollectingVotes ==>
      Run(c, events).phase == CollectingVotes && Run(c, events).independent == c.independent
    ensures c.binding <= Run(c, events).binding
    decreases |events|
  {
    if events != [] {
      StepLawful(c, events[0]);
      RunLawful(Step(c, events[0]), events[1..]);
    }
  }

  // ---- clocks that disagree ----

  /** The two readings are within the pairwise budget. */
  predicate Agree(x: u64, y: u64) {
    x <= y + MAX_CLOCK_SKEW_SECONDS && y <= x + MAX_CLOCK_SKEW_SECONDS
  }

  /** Once any honest node may close consultation, every honest clock is past
      the cutoff. */
  lemma CloseMeansPastEverywhere(c: CaseState, now: u64, other: u64)
    requires c.phase == Consulting && Closed(c, now).1.Ok? && Agree(now, other)
    ensures other > c.subject.ConsultationCutoff()
  {
  }

  /** The budget is exact: a node that closed one second sooner could be in
      the binding stage while another honest clock has not reached the cutoff. */
  lemma SkewBudgetIsTight(deadline: u64)
    requires deadline + MAX_CLOCK_SKEW_SECONDS < U64_MAX
    ensures exists now: u64, other: u64 ::
      (!CertainlyAfter(now, deadline) && CertainlyAfter(SaturatingAdd(now, 1), deadline)
       && Agree(now, other) && other <= deadline)
  {
    var now: u64 := deadline + MAX_CLOCK_SKEW_SECONDS;
    assert !CertainlyAfter(now, deadline) && CertainlyAfter(SaturatingAdd(now, 1), deadline);
    assert Agree(now, deadline);
  }

  /** If every reading is also within the budget of the schedule's own instant,
      every honest node can close by the time the binding stage opens. */
  lemma AllCloseBeforeBinding(c: CaseState, schedule: u64, now: u64)
    requires c.phase == Consulting && Agree(schedule, now)
    requires schedule >= c.subject.startedAt + BINDING_STAGE_OPENS_SECONDS
    ensures Closed(c, now).1 == Ok(())
  {
  }

  /** A binding vote is admitted only where no honest clock could call the case
      expired. */
  lemma VoteMeansUnexpiredEverywhere(c: CaseState, o: Opinion, now: u64, other: u64)
    requires o.stage == BindingSupport && Accepted(c, o, now).1 == Ok(()) && Agree(now, other)
    ensures other < c.expiresAt
  {
  }


  // ---- what is taken ----

  /** While consulting, everybody's first opinion in each stage is recorded, and no
      second one; a binding vote is not. Once closed, everybody's first vote is
      recorded while the case is certainly open, and no opinion. Nothing else
      changes. */
  lemma AcceptedExactly(c: CaseState, o: Opinion, now: u64)
    requires o.subject == c.subject
    ensures var after := Accepted(c, o, now).0;
            after == c.(independent := after.independent, binding := after.binding, voted := after.voted)
            && after.independent
               == (if c.phase == Consulting && o.stage != BindingSupport
                      && now <= SaturatingAdd(c.expiresAt, MAX_CLOCK_SKEW_SECONDS)
                      && !Heard(c.independent, o.author, o.stage)
                   then c.independent + [o] else c.independent)
            && (if c.phase == CollectingVotes && o.stage == BindingSupport
                   && CertainlyBefore(now, c.expiresAt) && o.author !in c.voted
                then after.binding == c.binding + [o] && after.voted == c.voted + {o.author}
                else after.binding == c.binding && after.voted == c.voted)
  {
  }

  /** Consultation closes only when the cutoff is certainly past, changes nothing but
      the phase in closing, and does not close again. */
  lemma ClosesExactly(c: CaseState, now: u64, later: u64)
    ensures var (after, r) := Closed(c, now);
            (r.Ok? <==> c.phase == Consulting
                        && now > SaturatingAdd(c.subject.ConsultationCutoff(), MAX_CLOCK_SKEW_SECONDS))
            && after == (if r.Ok? then c.(phase := CollectingVotes) else c)
            && (r.Ok? ==> Closed(after, later) == (after, Err(ConsultationClosed)))
            && (c.phase == CollectingVotes ==> r == Err(ConsultationClosed))
  {
  }

  /** What a case takes is taken once: offered again, an opinion changes nothing
      and a vote is refused. */
  lemma TakenOnce(c: CaseState, o: Opinion, now: u64)
    requires Accepted(c, o, now).1 == Ok(())
    ensures var after := Accepted(c, o, now).0;
            Accepted(after, o, now)
            == (after, if o.stage == BindingSupport then Err(AlreadyVoted) else Ok(()))
  {
    var after := Accepted(c, o, now).0;
    if after.independent != c.independent {
      assert after.independent[|c.independent|] == o;
    }
  }
}
