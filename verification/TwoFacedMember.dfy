/** A faulty member that says two things: what one process counts it for, the next
    may not. */
module TwoFacedMember {
  import opened Basics
  import opened Contracts
  import opened Journal
  import opened CompactFrame
  import opened Member
  import opened Fleet
  import opened FleetSafety
  import opened FleetRestarts
  import CaseMachine
  import R = Recount

  /** Member `a`'s binding vote with this verdict, as it would frame it. */
  function Saying(m: Mission, a: u16, v: Verdict): seq<byte> {
    m.wire.frame(EnvelopeOf(m, a, StageCode(BindingSupport), VerdictCode(v), 0, seq(8, _ => 0),
                            RoundId(0, 0)))
  }

  lemma SayingReads(m: Mission, a: u16, v: Verdict)
    requires Wired(m) && a as int < |m.ids|
    ensures R.VoteOf(m, a, Saying(m, a, v)) && R.VerdictIn(m, a, Saying(m, a, v)) == v
    ensures m.wire.believes(Saying(m, a, v)).Some?
    ensures m.wire.believes(Saying(m, a, v)).value.author == a
  {
    var e := EnvelopeOf(m, a, StageCode(BindingSupport), VerdictCode(v), 0, seq(8, _ => 0), RoundId(0, 0));
    assert m.wire.believes(m.wire.frame(e)) == Some(e);
  }

  /** The case has counted this one vote and no other. */
  ghost predicate CountedOnly(m: Mission, n: Node, a: u16, v: Verdict)
    requires a as int < |m.ids|
  {
    n.life.Some? && n.life.value.situation.binding == [Opinion(m.ids[a], m.subject, BindingSupport, v)]
  }

  /** The journal has witnessed this frame under that name and nothing else, and
      no vote of its own. */
  ghost predicate WitnessedOnly(m: Mission, j: State, a: u16, frame: seq<byte>)
    requires a as int < |m.ids|
  {
    j.witnessed == map[m.ids[a] := frame] && j.locks == {} && j.pending == map[] && !RolledBack(m, j)
  }

  /** A process that counts what it hears of `a`, and dies. */
  function FirstLife(frame: seq<byte>, now: u64): seq<Act> {
    [Restart, Freeze(now), Receive(frame, now, true), Crash]
  }

  /** The next one hears something else of `a` before it closes consultation. */
  function SecondLife(frame: seq<byte>, a: u16, now: u64): seq<Act> {
    [Restart, Receive(frame, now, true), Freeze(now), Drain(a, now, true)]
  }

  lemma FourActs(m: Mission, i: u16, n: Node, a: Act, b: Act, c: Act, d: Act)
    requires i as int < |m.ids|
    ensures R.Acts(m, i, n, [a, b, c, d])
         == Do(m, i, Do(m, i, Do(m, i, Do(m, i, n, a).node, b).node, c).node, d).node
  {
    var n1 := Do(m, i, n, a).node;
    var n2 := Do(m, i, n1, b).node;
    var n3 := Do(m, i, n2, c).node;
    assert [a, b, c, d] == [a] + ([b] + ([c] + ([d] + [])));
    R.ActsInRow(m, i, n, a, [b] + ([c] + ([d] + [])));
    R.ActsInRow(m, i, n1, b, [c] + ([d] + []));
    R.ActsInRow(m, i, n2, c, [d] + []);
    R.ActsInRow(m, i, n3, d, []);
    R.ActsInRow(m, i, Do(m, i, n3, d).node, d, []);
  }

  /** The journal has witnessed nobody, and no vote of its own. */
  ghost predicate Blank(m: Mission, j: State) {
    j.witnessed == map[] && j.locks == {} && j.pending == map[] && !RolledBack(m, j)
  }

  lemma StartsBlank(m: Mission, i: u16, n: Node)
    requires i as int < |m.ids| && n.life == None && Blank(m, n.journal)
    ensures var up := Do(m, i, n, Restart).node;
            up.life.Some? && Blank(m, up.journal)
            && up.life.value.situation == CaseMachine.Opened(m.subject)
  {
  }

  lemma Freezes(m: Mission, i: u16, n: Node, now: u64)
    requires i as int < |m.ids| && n.life.Some?
    requires n.life.value.situation == CaseMachine.Opened(m.subject)
    requires CertainlyAfter(now, m.subject.ConsultationCutoff())
    ensures Do(m, i, n, Freeze(now)).node
         == Node(n.journal, Some(n.life.value.(
              situation := CaseMachine.Opened(m.subject).(phase := CaseMachine.CollectingVotes))))
  {
  }

  lemma ComesUpBlank(m: Mission, i: u16, n: Node, now: u64)
    requires i as int < |m.ids| && n.life == None && Blank(m, n.journal)
    requires CertainlyAfter(now, m.subject.ConsultationCutoff())
    ensures var up := Do(m, i, Do(m, i, n, Restart).node, Freeze(now)).node;
            up.life.Some? && Blank(m, up.journal)
            && up.life.value.situation
               == CaseMachine.Opened(m.subject).(phase := CaseMachine.CollectingVotes)
  {
    StartsBlank(m, i, n);
    Freezes(m, i, Do(m, i, n, Restart).node, now);
  }

  lemma HearsFirst(m: Mission, i: u16, n: Node, a: u16, frame: seq<byte>, now: u64)
    requires i as int < |m.ids| && a as int < |m.ids| && R.VoteOf(m, a, frame)
    requires n.life.Some? && Blank(m, n.journal)
    requires n.life.value.situation
          == CaseMachine.Opened(m.subject).(phase := CaseMachine.CollectingVotes)
    requires CertainlyBefore(now, m.subject.DefaultExpiry())
    ensures WitnessedOnly(m, Do(m, i, n, Receive(frame, now, true)).node.journal, a, frame)
  {
    R.CountOne(m, n.life.value.situation, a, frame, now);
    TakenInIsWitnessed(m, i, n, Receive(frame, now, true), a, frame, now);
  }

  lemma FirstLifeWitnesses(m: Mission, i: u16, n: Node, a: u16, frame: seq<byte>, now: u64)
    requires i as int < |m.ids| && a as int < |m.ids| && R.VoteOf(m, a, frame)
    requires n.life == None && Blank(m, n.journal)
    requires CertainlyAfter(now, m.subject.ConsultationCutoff())
    requires CertainlyBefore(now, m.subject.DefaultExpiry())
    ensures var down := R.Acts(m, i, n, FirstLife(frame, now));
            down.life == None && WitnessedOnly(m, down.journal, a, frame)
  {
    FourActs(m, i, n, Restart, Freeze(now), Receive(frame, now, true), Crash);
    ComesUpBlank(m, i, n, now);
    HearsFirst(m, i, Do(m, i, Do(m, i, n, Restart).node, Freeze(now)).node, a, frame, now);
  }

  lemma StartsHolding(m: Mission, i: u16, n: Node, a: u16, frame: seq<byte>)
    requires R.DistinctIds(m) && i as int < |m.ids| && a as int < |m.ids| && a != i
    requires n.life == None && WitnessedOnly(m, n.journal, a, frame)
    ensures var up := Do(m, i, n, Restart).node;
            up.life.Some? && WitnessedOnly(m, up.journal, a, frame)
            && up.life.value.situation == CaseMachine.Opened(m.subject)
            && up.life.value.early == map[a := frame]
  {
  }

  lemma HearsOther(m: Mission, i: u16, n: Node, a: u16, first: seq<byte>, second: seq<byte>, now: u64)
    requires i as int < |m.ids| && a as int < |m.ids| && R.VoteOf(m, a, second) && n.life.Some?
    requires n.life.value.situation == CaseMachine.Opened(m.subject)
    requires n.life.value.early == map[a := first]
    requires CertainlyBefore(now, m.subject.DefaultExpiry())
    ensures var heard := Do(m, i, n, Receive(second, now, true)).node;
            heard.life.Some? && heard.journal == n.journal
            && heard.life.value.situation == CaseMachine.Opened(m.subject)
            && heard.life.value.early == map[a := second]
  {
  }

  lemma DrainsOther(m: Mission, i: u16, n: Node, a: u16, first: seq<byte>, second: seq<byte>, now: u64)
    requires i as int < |m.ids| && a as int < |m.ids| && R.VoteOf(m, a, second) && n.life.Some?
    requires WitnessedOnly(m, n.journal, a, first)
    requires n.life.value.situation == CaseMachine.Opened(m.subject)
    requires n.life.value.early == map[a := second]
    requires CertainlyAfter(now, m.subject.ConsultationCutoff())
    requires CertainlyBefore(now, m.subject.DefaultExpiry())
    ensures var up := Do(m, i, Do(m, i, n, Freeze(now)).node, Drain(a, now, true)).node;
            CountedOnly(m, up, a, R.VerdictIn(m, a, second)) && up.journal == n.journal
  {
    var frozen := Do(m, i, n, Freeze(now)).node;
    Freezes(m, i, n, now);
    R.CountOne(m, frozen.life.value.situation, a, second, now);
  }

  /** What came too early replaces what was witnessed among the held votes, and is
      counted; the journal keeps the other. */
  lemma SecondLifeCountsOther(
    m: Mission, i: u16, n: Node, a: u16, first: seq<byte>, second: seq<byte>, now: u64)
    requires R.DistinctIds(m) && i as int < |m.ids| && a as int < |m.ids| && a != i
    requires R.VoteOf(m, a, second) && n.life == None && WitnessedOnly(m, n.journal, a, first)
    requires CertainlyAfter(now, m.subject.ConsultationCutoff())
    requires CertainlyBefore(now, m.subject.DefaultExpiry())
    ensures var up := R.Acts(m, i, n, SecondLife(second, a, now));
            CountedOnly(m, up, a, R.VerdictIn(m, a, second))
            && WitnessedOnly(m, up.journal, a, first)
  {
    FourActs(m, i, n, Restart, Receive(second, now, true), Freeze(now), Drain(a, now, true));
    StartsHolding(m, i, n, a, first);
    var up := Do(m, i, n, Restart).node;
    HearsOther(m, i, up, a, first, second, now);
    DrainsOther(m, i, Do(m, i, up, Receive(second, now, true)).node, a, first, second, now);
  }

  lemma {:induction false} ActsConcat(m: Mission, i: u16, n: Node, a: seq<Act>, b: seq<Act>)
    requires i as int < |m.ids|
    ensures R.Acts(m, i, n, a + b) == R.Acts(m, i, R.Acts(m, i, n, a), b)
    decreases |a|
  {
    if a == [] {
      assert a + b == b;
    } else {
      assert (a + b)[1..] == a[1..] + b;
      ActsConcat(m, i, Do(m, i, n, a[0]).node, a[1..], b);
    }
  }

  /** The two frames on the air. */
  function BothSaid(first: seq<byte>, second: seq<byte>): seq<Step> {
    [Inject(first), Inject(second)]
  }

  lemma FaultyCanSay(s: Setup, air: set<seq<byte>>, a: u16, v: Verdict)
    requires Wired(s.mission) && a !in s.honest && a as int < |s.mission.ids|
    ensures Injectable(s, air, Saying(s.mission, a, v))
  {
    SayingReads(s.mission, a, v);
  }

  lemma BothGetOnTheAir(s: Setup, w: World, a: u16, v: Verdict, u: Verdict)
    requires Wired(s.mission) && a !in s.honest && a as int < |s.mission.ids|
    ensures var first, second := Saying(s.mission, a, v), Saying(s.mission, a, u);
            Allowed(s, w, BothSaid(first, second))
            && Run(s, w, BothSaid(first, second)).nodes == w.nodes
            && first in Run(s, w, BothSaid(first, second)).air
            && second in Run(s, w, BothSaid(first, second)).air
  {
    var first, second := Saying(s.mission, a, v), Saying(s.mission, a, u);
    FaultyCanSay(s, w.air, a, v);
    var mid := Next(s, w, Inject(first));
    FaultyCanSay(s, mid.air, a, u);
    assert BothSaid(first, second)[1..] == [Inject(second)];
    assert [Inject(second)][1..] == [];
    var end := Next(s, mid, Inject(second));
    assert Run(s, mid, [Inject(second)]) == Run(s, end, []) == end;
  }

  lemma TwoLives(
    m: Mission, i: u16, n: Node, a: u16, first: seq<byte>, second: seq<byte>, now: u64)
    requires R.DistinctIds(m) && i as int < |m.ids| && a as int < |m.ids| && a != i
    requires R.VoteOf(m, a, first) && R.VoteOf(m, a, second)
    requires n.life == None && Blank(m, n.journal)
    requires CertainlyAfter(now, m.subject.ConsultationCutoff())
    requires CertainlyBefore(now, m.subject.DefaultExpiry())
    ensures var up := R.Acts(m, i, n, FirstLife(first, now) + SecondLife(second, a, now));
            CountedOnly(m, up, a, R.VerdictIn(m, a, second)) && WitnessedOnly(m, up.journal, a, first)
  {
    ActsConcat(m, i, n, FirstLife(first, now), SecondLife(second, a, now));
    FirstLifeWitnesses(m, i, n, a, first, now);
    SecondLifeCountsOther(m, i, R.Acts(m, i, n, FirstLife(first, now)), a, first, second, now);
  }

  /** What a faulty member can bring about: the case at this member has counted it
      for `u`, and the next process holds its vote for `v`. */
  ghost predicate Flips(s: Setup, w: World, i: u16, a: u16, v: Verdict, u: Verdict)
    requires a as int < |s.mission.ids| && i as int < |s.mission.ids|
  {
    i in w.nodes && CountedOnly(s.mission, w.nodes[i], a, u)
    && !RolledBack(s.mission, w.nodes[i].journal)
    && var held := R.StartsWith(s.mission, i, Node(w.nodes[i].journal, None));
       held.Keys == {a} && R.VoteOf(s.mission, a, held[a]) && R.VerdictIn(s.mission, a, held[a]) == v
  }

  lemma WitnessedIsHeld(m: Mission, i: u16, j: State, a: u16, frame: seq<byte>)
    requires R.DistinctIds(m) && i as int < |m.ids| && a as int < |m.ids| && a != i
    requires WitnessedOnly(m, j, a, frame)
    ensures R.StartsWith(m, i, Node(j, None)) == map[a := frame]
  {
  }

  lemma ComesToFlip(s: Setup, w: World, i: u16, a: u16, v: Verdict, u: Verdict)
    requires Wired(s.mission) && i as int < |s.mission.ids| && a as int < |s.mission.ids| && a != i
    requires i in w.nodes && CountedOnly(s.mission, w.nodes[i], a, u)
    requires WitnessedOnly(s.mission, w.nodes[i].journal, a, Saying(s.mission, a, v))
    ensures Flips(s, w, i, a, v, u)
  {
    SayingReads(s.mission, a, v);
    WitnessedIsHeld(s.mission, i, w.nodes[i].journal, a, Saying(s.mission, a, v));
  }

  /** A run of two lives at one member, after both frames got on the air. */
  lemma TheRun(s: Setup, w: World, i: u16, first: seq<byte>, second: seq<byte>, a: u16, now: u64)
    requires i in s.honest && i in w.nodes && i as int < |s.mission.ids|
    requires first in w.air && second in w.air
    ensures var acts := FirstLife(first, now) + SecondLife(second, a, now);
            Allowed(s, w, Takes(i, acts)) && AllDurable(i, Takes(i, acts))
            && Run(s, w, Takes(i, acts)).nodes
               == w.nodes[i := R.Acts(s.mission, i, w.nodes[i], acts)]
  {
    TakesRun(s, w, i, FirstLife(first, now) + SecondLife(second, a, now));
  }

  lemma TwoLivesFlip(
    s: Setup, w: World, after: World, i: u16, a: u16, v: Verdict, u: Verdict, now: u64)
    requires Wired(s.mission) && i in w.nodes && a != i
    requires i as int < |s.mission.ids| && a as int < |s.mission.ids|
    requires w.nodes[i].life == None && Blank(s.mission, w.nodes[i].journal)
    requires CertainlyAfter(now, s.mission.subject.ConsultationCutoff())
    requires CertainlyBefore(now, s.mission.subject.DefaultExpiry())
    requires i in after.nodes && after.nodes[i] == R.Acts(s.mission, i, w.nodes[i],
      FirstLife(Saying(s.mission, a, v), now) + SecondLife(Saying(s.mission, a, u), a, now))
    ensures Flips(s, after, i, a, v, u)
  {
    SayingReads(s.mission, a, v);
    SayingReads(s.mission, a, u);
    TwoLives(s.mission, i, w.nodes[i], a, Saying(s.mission, a, v), Saying(s.mission, a, u), now);
    ComesToFlip(s, after, i, a, v, u);
  }

  lemma BothThenDurable(i: u16, first: seq<byte>, second: seq<byte>, rest: seq<Step>)
    requires AllDurable(i, rest)
    ensures AllDurable(i, BothSaid(first, second) + rest)
  {
    var steps := BothSaid(first, second) + rest;
    forall k | 0 <= k < |steps|
      ensures Durable(i, steps[k])
    {
      assert k >= 2 ==> steps[k] == rest[k - 2];
    }
  }

  /** In any fleet with a faulty member, at any honest one whose journal allows it
      to start: a run, all of whose writes are durable, at whose end the member is
      counted for one verdict and will be held for another by the next process. */
  lemma FaultyMemberFlips(s: Setup, w: World, i: u16, a: u16, v: Verdict, u: Verdict, now: u64)
    returns (steps: seq<Step>)
    requires LawfulSetup(s) && Initial(s, w) && i in s.honest
    requires a !in s.honest && a as int < |s.mission.ids| && i as int < |s.mission.ids|
    requires !RolledBack(s.mission, w.nodes[i].journal)
    requires CertainlyAfter(now, s.mission.subject.ConsultationCutoff())
    requires CertainlyBefore(now, s.mission.subject.DefaultExpiry())
    ensures Allowed(s, w, steps) && AllDurable(i, steps) && Flips(s, Run(s, w, steps), i, a, v, u)
  {
    var first, second := Saying(s.mission, a, v), Saying(s.mission, a, u);
    LawfulIsWired(s);
    BothGetOnTheAir(s, w, a, v, u);
    var heard := Run(s, w, BothSaid(first, second));
    var lives := Takes(i, FirstLife(first, now) + SecondLife(second, a, now));
    TheRun(s, heard, i, first, second, a, now);
    BothThenDurable(i, first, second, lives);
    RunConcat(s, w, BothSaid(first, second), lives);
    steps := BothSaid(first, second) + lives;
    TwoLivesFlip(s, w, Run(s, w, steps), i, a, v, u, now);
  }

  lemma FlipLosesSupport(s: Setup, w: World, i: u16, a: u16)
    requires Wired(s.mission) && i as int < |s.mission.ids| && a as int < |s.mission.ids|
    requires Flips(s, w, i, a, Dispute, Support)
    ensures Tally(w, i) == {s.mission.ids[a]}
    ensures R.Supporting(s.mission, R.StartsWith(s.mission, i, Node(w.nodes[i].journal, None)), [a]) == {}
  {
    var binding := w.nodes[i].life.value.situation.binding;
    assert binding[0] == Opinion(s.mission.ids[a], s.mission.subject, BindingSupport, Support);
  }

  /** So a tally need not survive its process, even if the journal failed at
      nothing: this member counts one supporter, and the process that takes its
      place counts none. */
  lemma TallyCanShrink(s: Setup, w: World, i: u16, a: u16, now: u64) returns (steps: seq<Step>)
    requires LawfulSetup(s) && Initial(s, w) && i in s.honest
    requires a !in s.honest && a as int < |s.mission.ids| && i as int < |s.mission.ids|
    requires !RolledBack(s.mission, w.nodes[i].journal)
    requires CertainlyAfter(now, s.mission.subject.ConsultationCutoff())
    requires CertainlyBefore(now, s.mission.subject.DefaultExpiry())
    ensures Allowed(s, w, steps) && AllDurable(i, steps) && i in Run(s, w, steps).nodes
    ensures Tally(Run(s, w, steps), i) == {s.mission.ids[a]}
    ensures var back := Back(s.mission, i, Run(s, w, steps).nodes[i].journal, now, [a]);
            back.life.Some? && CaseMachine.Supporters(back.life.value.situation) == {}
  {
    steps := FaultyMemberFlips(s, w, i, a, Dispute, Support, now);
    var up := Run(s, w, steps);
    LawfulIsWired(s);
    ReachedInv(s, w, steps);
    RunKeepsWitnesses(s, w, steps);
    OutboxIsVote(s, up, i);
    FlipLosesSupport(s, up, i, a);
    R.TallySurvives(s.mission, i, Node(up.nodes[i].journal, None), now, [a]);
  }
}
