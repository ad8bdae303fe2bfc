/** The whole fleet: honest members that may crash at any point, a network that
    loses, repeats and reorders, and faulty members that send what they like. */
module Fleet {
  import opened Basics
  import opened Postcard
  import opened Contracts
  import opened Journal
  import opened CaseMachine
  import opened CompactFrame
  import opened Quorum
  import opened Member

  /** The honest members by index, and the policy they all evaluate. */
  datatype Setup = Setup(mission: Mission, policy: Policy, honest: set<u16>)

  function HonestIds(s: Setup): set<text> {
    set i | i in s.honest && i as int < |s.mission.ids| :: s.mission.ids[i]
  }

  /** The manifest names each member once, and no more members are faulty than
      the policy's budget allows. */
  ghost predicate LawfulSetup(s: Setup) {
    Quorum.Lawful(s.policy)
    && (forall i :: i in s.honest ==> i as int < |s.mission.ids|)
    && (forall i, j :: 0 <= i < j < |s.mission.ids| ==> s.mission.ids[i] != s.mission.ids[j])
    && HonestIds(s) <= s.policy.competences.Keys
    && |s.policy.competences.Keys - HonestIds(s)| <= s.policy.MaxFaulty()
    && Faithful(s.mission.wire, |s.mission.ids|)
  }

  /** The honest members, every byte string that was ever on the air, the vote
      each honest member committed, and every envelope honest members sealed.
      The last two are history: no member reads them. */
  datatype World = World(
    nodes: map<u16, Node>, air: set<seq<byte>>, votes: map<u16, Envelope>, sealed: set<Envelope>)

  datatype Step = Inject(frame: seq<byte>) | Take(member: u16, act: Act)

  /** A faulty member can put any bytes on the air, except that nothing reads as
      an honest member's envelope unless that member put that envelope on the
      air itself. */
  ghost predicate Injectable(s: Setup, air: set<seq<byte>>, frame: seq<byte>) {
    match s.mission.wire.believes(frame)
    case None => true
    case Some(e) =>
      e.author in s.honest ==> exists f :: f in air && s.mission.wire.believes(f) == Some(e)
  }

  /** Received bytes come off the air, in any order, any number of times or
      never. */
  ghost predicate Permitted(s: Setup, w: World, step: Step) {
    match step
    case Inject(frame) => Injectable(s, w.air, frame)
    case Take(i, act) =>
      i in s.honest && i in w.nodes && i as int < |s.mission.ids|
      && (act.Receive? ==> act.frame in w.air)
  }

  /** What an effect adds to the histories. */
  ghost function VotesAfter(w: World, i: u16, effect: Effect): map<u16, Envelope> {
    if effect.voted && effect.sealed.Some? then w.votes[i := effect.sealed.value] else w.votes
  }

  ghost function SealedAfter(w: World, effect: Effect): set<Envelope> {
    if effect.sealed.Some? then w.sealed + {effect.sealed.value} else w.sealed
  }

  ghost function Happens(w: World, i: u16, effect: Effect): World {
    World(w.nodes[i := effect.node],
          if effect.sent.Some? then w.air + {effect.sent.value} else w.air,
          VotesAfter(w, i, effect), SealedAfter(w, effect))
  }

  ghost function Next(s: Setup, w: World, step: Step): World
    requires Permitted(s, w, step)
  {
    match step
    case Inject(frame) => w.(air := w.air + {frame})
    case Take(i, act) => Happens(w, i, Do(s.mission, i, w.nodes[i], act))
  }

  ghost predicate Allowed(s: Setup, w: World, steps: seq<Step>)
    decreases |steps|
  {
    steps == [] || (Permitted(s, w, steps[0]) && Allowed(s, Next(s, w, steps[0]), steps[1..]))
  }

  ghost function Run(s: Setup, w: World, steps: seq<Step>): World
    requires Allowed(s, w, steps)
    decreases |steps|
  {
    if steps == [] then w else Run(s, Next(s, w, steps[0]), steps[1..])
  }

  lemma {:induction false} RunConcat(s: Setup, w: World, a: seq<Step>, b: seq<Step>)
    requires Allowed(s, w, a) && Allowed(s, Run(s, w, a), b)
    ensures Allowed(s, w, a + b) && Run(s, w, a + b) == Run(s, Run(s, w, a), b)
    decreases |a|
  {
    if a == [] {
      assert a + b == b;
    } else {
      assert (a + b)[0] == a[0] && (a + b)[1..] == a[1..] + b;
      RunConcat(s, Next(s, w, a[0]), a[1..], b);
    }
  }

  /** Every honest member is down, its journal empty save for where its counter
      starts and an epoch; nothing is on the air. */
  ghost predicate Initial(s: Setup, w: World) {
    w.nodes.Keys == s.honest
    && (forall i :: i in w.nodes ==>
      w.nodes[i].life == None
      && w.nodes[i].journal.locks == {}
      && w.nodes[i].journal.pending == map[]
      && w.nodes[i].journal.witnessed == map[])
    && w.air == {} && w.votes == map[] && w.sealed == {}
  }

  // ---- what every step keeps ----

  /** The part of a lawful setup the steps rest on. */
  ghost predicate Wired(m: Mission) {
    Faithful(m.wire, |m.ids|)
    && forall i, j :: 0 <= i < j < |m.ids| ==> m.ids[i] != m.ids[j]
  }

  /** A frame that reads as an honest member's binding vote is the vote that
      member committed. */
  ghost predicate Genuine(s: Setup, votes: map<u16, Envelope>, frame: seq<byte>) {
    match s.mission.wire.believes(frame)
    case None => true
    case Some(e) =>
      e.author in s.honest && e.stage == StageCode(BindingSupport) ==>
        e.author in votes && votes[e.author] == e
  }

  /** A recorded binding vote by an honest member is the one it committed. */
  ghost predicate Honoured(s: Setup, votes: map<u16, Envelope>, o: Opinion) {
    forall j :: j in s.honest && j as int < |s.mission.ids| && s.mission.ids[j] == o.author ==>
      j in votes && VerdictOf(votes[j].verdict) == Some(o.verdict)
  }

  ghost predicate CaseOk(s: Setup, votes: map<u16, Envelope>, c: CaseState) {
    forall k :: 0 <= k < |c.binding| ==> Honoured(s, votes, c.binding[k])
  }

  ghost predicate AllGenuine<K>(s: Setup, votes: map<u16, Envelope>, held: map<K, seq<byte>>) {
    forall k :: k in held ==> Genuine(s, votes, held[k])
  }

  ghost predicate LifeOk(s: Setup, votes: map<u16, Envelope>, l: Life) {
    CaseOk(s, votes, l.situation) && AllGenuine(s, votes, l.early)
    && (l.ready.Some? ==> Genuine(s, votes, l.ready.value))
  }

  /** A well-formed vote by member `i`. */
  ghost predicate VoteBy(s: Setup, i: u16, e: Envelope) {
    e.author == i && i as int < |s.mission.ids|
    && e.stage == StageCode(BindingSupport) && SameSubject(s.mission, e)
    && VerdictOf(e.verdict).Some?
  }

  /** The outbox holds the committed vote under its own sequence once the lock
      is taken, and nothing before. */
  ghost predicate OutboxOk(s: Setup, votes: map<u16, Envelope>, i: u16, j: State) {
    i as int < |s.mission.ids|
    && (i in votes <==> HasVoted(s.mission, i, j))
    && (i in votes ==>
      VoteBy(s, i, votes[i])
      && j.pending == map[votes[i].sequence :=
           OutgoingFrame(s.mission.wire.frame(votes[i]), votes[i].sequence, None)])
    && (i !in votes ==> j.pending == map[])
  }

  /** The counter stands past everything this member ever sealed. */
  ghost predicate CounterOk(sealed: set<Envelope>, i: u16, j: State) {
    forall e :: e in sealed && e.author == i ==> SaturatingAdd(e.sequence, 1) <= j.nextSequence
  }

  ghost predicate NodeOk(s: Setup, votes: map<u16, Envelope>, sealed: set<Envelope>, i: u16, n: Node) {
    OutboxOk(s, votes, i, n.journal) && CounterOk(sealed, i, n.journal)
    && AllGenuine(s, votes, n.journal.witnessed)
    && (n.life.Some? ==> LifeOk(s, votes, n.life.value))
  }

  /** No two sealed envelopes share a nonce, below the counter's ceiling. */
  ghost predicate NoncesOk(sealed: set<Envelope>) {
    forall e, f ::
      e in sealed && f in sealed && e.author == f.author && e.sequence == f.sequence < U64_MAX
      ==> e == f
  }

  ghost predicate Inv(s: Setup, w: World) {
    w.nodes.Keys == s.honest
    && (forall i :: i in w.nodes ==> NodeOk(s, w.votes, w.sealed, i, w.nodes[i]))
    && (forall f :: f in w.air ==> Genuine(s, w.votes, f))
    && (forall i :: i in w.votes ==> i in s.honest && w.votes[i] in w.sealed)
    && NoncesOk(w.sealed)
  }

  lemma InitialInv(s: Setup, w: World)
    requires Initial(s, w) && forall i :: i in s.honest ==> i as int < |s.mission.ids|
    ensures Inv(s, w)
  {
  }

  /** One more commitment, which nobody had seen before. */
  ghost predicate Extends(votes: map<u16, Envelope>, more: map<u16, Envelope>) {
    forall i :: i in votes ==> i in more && more[i] == votes[i]
  }

  lemma GenuineStays(s: Setup, votes: map<u16, Envelope>, more: map<u16, Envelope>, frame: seq<byte>)
    requires Genuine(s, votes, frame) && Extends(votes, more)
    ensures Genuine(s, more, frame)
  {
  }

  lemma LifeStays(s: Setup, votes: map<u16, Envelope>, more: map<u16, Envelope>, l: Life)
    requires LifeOk(s, votes, l) && Extends(votes, more)
    ensures LifeOk(s, more, l)
  {
    forall k | k in l.early
      ensures Genuine(s, more, l.early[k])
    {
      GenuineStays(s, votes, more, l.early[k]);
    }
    if l.ready.Some? {
      GenuineStays(s, votes, more, l.ready.value);
    }
    forall k | 0 <= k < |l.situation.binding|
      ensures Honoured(s, more, l.situation.binding[k])
    {
      assert Honoured(s, votes, l.situation.binding[k]);
    }
  }

  lemma WitnessedStay(
    s: Setup, votes: map<u16, Envelope>, more: map<u16, Envelope>, held: map<text, seq<byte>>)
    requires AllGenuine(s, votes, held) && Extends(votes, more)
    ensures AllGenuine(s, more, held)
  {
    forall k | k in held
      ensures Genuine(s, more, held[k])
    {
      GenuineStays(s, votes, more, held[k]);
    }
  }

  /** A member is not disturbed by what another one commits or seals. */
  lemma OthersStay(
    s: Setup, votes: map<u16, Envelope>, more: map<u16, Envelope>,
    sealed: set<Envelope>, others: set<Envelope>, i: u16, n: Node)
    requires NodeOk(s, votes, sealed, i, n) && Extends(votes, more)
    requires i in more ==> i in votes
    requires forall e :: e in others ==> e.author != i
    ensures NodeOk(s, more, sealed + others, i, n)
  {
    if n.life.Some? {
      LifeStays(s, votes, more, n.life.value);
    }
    WitnessedStay(s, votes, more, n.journal.witnessed);
  }

  // ---- admitting ----

  lemma IdsDiffer(s: Setup, i: u16, j: u16)
    requires Wired(s.mission) && i as int < |s.mission.ids| && j as int < |s.mission.ids|
    requires s.mission.ids[i] == s.mission.ids[j]
    ensures i == j
  {
  }

  /** Offering a genuine frame to the case adds at most the vote its author
      committed. */
  lemma AdmitKeepsCase(s: Setup, votes: map<u16, Envelope>, c: CaseState, frame: seq<byte>, now: u64)
    requires Wired(s.mission) && CaseOk(s, votes, c) && Genuine(s, votes, frame)
    ensures CaseOk(s, votes, Admit(s.mission, c, frame, now).0)
  {
    var after := Admit(s.mission, c, frame, now).0;
    if after.binding != c.binding {
      var e := s.mission.wire.believes(frame).value;
      var o := Opinion(s.mission.ids[e.author], s.mission.subject, BindingSupport,
                       VerdictOf(e.verdict).value);
      assert after.binding == c.binding + [o];
      forall j | j in s.honest && j as int < |s.mission.ids| && s.mission.ids[j] == o.author
        ensures j in votes && VerdictOf(votes[j].verdict) == Some(o.verdict)
      {
        IdsDiffer(s, j, e.author);
      }
    }
  }

  lemma RememberKeeps(s: Setup, votes: map<u16, Envelope>, sealed: set<Envelope>, i: u16,
                      j: State, l: Learned, frame: seq<byte>, durable: bool)
    requires OutboxOk(s, votes, i, j) && CounterOk(sealed, i, j)
    requires AllGenuine(s, votes, j.witnessed) && Genuine(s, votes, frame)
    ensures var k := Remember(s.mission, j, l, frame, durable);
            OutboxOk(s, votes, i, k) && CounterOk(sealed, i, k) && AllGenuine(s, votes, k.witnessed)
  {
  }

  lemma ReceivedKeeps(s: Setup, votes: map<u16, Envelope>, sealed: set<Envelope>, i: u16,
                      n: Node, frame: seq<byte>, now: u64, durable: bool)
    requires Wired(s.mission) && NodeOk(s, votes, sealed, i, n) && n.life.Some?
    requires Genuine(s, votes, frame)
    ensures NodeOk(s, votes, sealed, i, Received(s.mission, n, n.life.value, frame, now, durable))
  {
    var l := n.life.value;
    var learned := Admit(s.mission, l.situation, frame, now).1;
    AdmitKeepsCase(s, votes, l.situation, frame, now);
    RememberKeeps(s, votes, sealed, i, n.journal, learned, frame, durable);
  }

  lemma DrainedKeeps(s: Setup, votes: map<u16, Envelope>, sealed: set<Envelope>, i: u16,
                     n: Node, author: u16, now: u64, durable: bool)
    requires Wired(s.mission) && NodeOk(s, votes, sealed, i, n) && n.life.Some?
    requires author in n.life.value.early
    ensures NodeOk(s, votes, sealed, i, Drained(s.mission, n, n.life.value, author, now, durable))
  {
    var l := n.life.value;
    var frame := l.early[author];
    var learned := Admit(s.mission, l.situation, frame, now).1;
    AdmitKeepsCase(s, votes, l.situation, frame, now);
    RememberKeeps(s, votes, sealed, i, n.journal, learned, frame, durable);
  }

  // ---- the outbox and coming back ----

  lemma OutboxIsGenuine(s: Setup, votes: map<u16, Envelope>, i: u16, j: State)
    requires Wired(s.mission) && OutboxOk(s, votes, i, j)
    ensures FirstPending(j).Some? <==> i in votes
    ensures i in votes ==> FirstPending(j).value == s.mission.wire.frame(votes[i])
    ensures FirstPending(j).Some? ==> Genuine(s, votes, FirstPending(j).value)
  {
    if i in votes {
      var k := votes[i].sequence;
      assert j.pending.Keys == {k};
      assert j.pending[k].bytes == s.mission.wire.frame(votes[i]);
      assert s.mission.wire.believes(s.mission.wire.frame(votes[i])) == Some(votes[i]);
    }
  }

  lemma RebornKeeps(s: Setup, votes: map<u16, Envelope>, i: u16, j: State)
    requires Wired(s.mission) && OutboxOk(s, votes, i, j) && AllGenuine(s, votes, j.witnessed)
    ensures LifeOk(s, votes, Reborn(s.mission, i, j))
  {
    OutboxIsGenuine(s, votes, i, j);
  }

  lemma RestartKeeps(s: Setup, votes: map<u16, Envelope>, sealed: set<Envelope>, i: u16, n: Node)
    requires Wired(s.mission) && NodeOk(s, votes, sealed, i, n) && n.life == None
    ensures NodeOk(s, votes, sealed, i, Do(s.mission, i, n, Restart).node)
  {
    var j := Perform(n.journal, EnterEpoch(s.mission.epoch)).0;
    assert OutboxOk(s, votes, i, j) && AllGenuine(s, votes, j.witnessed);
    RebornKeeps(s, votes, i, j);
  }

  // ---- building ----

  lemma FreshSequence(sealed: set<Envelope>, i: u16, j: State, e: Envelope)
    requires NoncesOk(sealed) && CounterOk(sealed, i, j)
    requires e.author == i && e.sequence == j.nextSequence
    ensures NoncesOk(sealed + {e})
    ensures CounterOk(sealed + {e}, i, Perform(j, ReserveSequence).0)
  {
  }

  /** What an effect must be for the fleet to stay in order. */
  ghost predicate EffectOk(s: Setup, w: World, i: u16, effect: Effect) {
    NodeOk(s, VotesAfter(w, i, effect), SealedAfter(w, effect), i, effect.node)
    && NoncesOk(SealedAfter(w, effect))
    && (effect.sealed.Some? ==> effect.sealed.value.author == i)
    && (effect.voted ==> i !in w.votes && effect.sealed.Some?)
    && (effect.sent.Some? ==> Genuine(s, w.votes, effect.sent.value))
  }

  lemma OwnFrameReads(s: Setup, i: u16, e: Envelope)
    requires Wired(s.mission) && i as int < |s.mission.ids| && e.author == i
    ensures s.mission.wire.believes(s.mission.wire.frame(e)) == Some(e)
  {
  }

  lemma QuietOk(s: Setup, w: World, i: u16, n: Node)
    requires NoncesOk(w.sealed) && NodeOk(s, w.votes, w.sealed, i, n)
    ensures EffectOk(s, w, i, Silent(n))
  {
  }

  /** Building anything but a vote touches only the counter. */
  lemma UtterOk(s: Setup, w: World, i: u16, n: Node, l: Life, stage: byte, verdict: byte,
                heard: eight, round: RoundId, reserves: bool)
    requires Wired(s.mission) && NoncesOk(w.sealed) && NodeOk(s, w.votes, w.sealed, i, n)
    requires n.life == Some(l) && stage != StageCode(BindingSupport)
    ensures var b := BuildOther(s.mission, i, n.journal, stage, verdict, heard, round, reserves);
            EffectOk(s, w, i, Effect(Node(b.journal, Some(l.(ready := b.frame))), None, b.sealed, false))
  {
    if reserves {
      var e := EnvelopeOf(s.mission, i, stage, verdict, n.journal.nextSequence, heard, round);
      FreshSequence(w.sealed, i, n.journal, e);
      OwnFrameReads(s, i, e);
      assert Genuine(s, w.votes, s.mission.wire.frame(e));
    }
  }

  /** The journal after a vote is committed. */
  lemma CommitKeepsOutbox(s: Setup, votes: map<u16, Envelope>, i: u16, j: State, e: Envelope)
    requires OutboxOk(s, votes, i, j) && i !in votes && VoteBy(s, i, e)
    ensures var frame := OutgoingFrame(s.mission.wire.frame(e), e.sequence, None);
            var after := Perform(j, CommitVote(s.mission.subject, s.mission.ids[i], frame)).0;
            OutboxOk(s, votes[i := e], i, after)
            && after.nextSequence >= j.nextSequence && after.witnessed == j.witnessed
  {
  }

  lemma CastEnvelope(s: Setup, i: u16, choice: Verdict, sequence: u64, heard: eight, round: RoundId)
    requires i as int < |s.mission.ids|
    ensures VoteBy(s, i, EnvelopeOf(s.mission, i, StageCode(BindingSupport), VerdictCode(choice),
                                    sequence, heard, round))
  {
  }

  /** The node once its vote is committed. */
  lemma CommittedNodeOk(s: Setup, w: World, i: u16, n: Node, l: Life, reserved: State, e: Envelope)
    requires Wired(s.mission) && NodeOk(s, w.votes, w.sealed, i, n) && n.life == Some(l)
    requires OutboxOk(s, w.votes, i, reserved) && CounterOk(w.sealed + {e}, i, reserved)
    requires reserved.witnessed == n.journal.witnessed
    requires i !in w.votes && VoteBy(s, i, e)
    ensures var frame := OutgoingFrame(s.mission.wire.frame(e), e.sequence, None);
            var after := Perform(reserved, CommitVote(s.mission.subject, s.mission.ids[i], frame)).0;
            NodeOk(s, w.votes[i := e], w.sealed + {e}, i,
                   Node(after, Some(l.(ready := Some(frame.bytes)))))
  {
    CommitKeepsOutbox(s, w.votes, i, reserved, e);
    OwnFrameReads(s, i, e);
    LifeStays(s, w.votes, w.votes[i := e], l);
    WitnessedStay(s, w.votes, w.votes[i := e], reserved.witnessed);
  }

  /** Building a vote commits at most one, ever, and hands back nothing that is
      not committed. */
  lemma CastOk(s: Setup, w: World, i: u16, n: Node, l: Life, choice: Verdict,
               heard: eight, round: RoundId, reserves: bool, commits: bool)
    requires Wired(s.mission) && NoncesOk(w.sealed) && NodeOk(s, w.votes, w.sealed, i, n)
    requires n.life == Some(l)
    ensures var b := BuildVote(s.mission, i, n.journal, choice, heard, round, reserves, commits);
            EffectOk(s, w, i, Effect(Node(b.journal, Some(l.(ready := b.frame))), None, b.sealed,
                                     b.sealed.Some? && b.frame.Some?))
  {
    var j := n.journal;
    if HasVoted(s.mission, i, j) {
      OutboxIsGenuine(s, w.votes, i, j);
    } else if reserves {
      var e := EnvelopeOf(s.mission, i, StageCode(BindingSupport), VerdictCode(choice),
                          j.nextSequence, heard, round);
      CastEnvelope(s, i, choice, j.nextSequence, heard, round);
      FreshSequence(w.sealed, i, j, e);
      var reserved := Perform(j, ReserveSequence).0;
      assert OutboxOk(s, w.votes, i, reserved);
      if commits {
        CommittedNodeOk(s, w, i, n, l, reserved, e);
      }
    }
  }

  lemma FreezeOk(s: Setup, w: World, i: u16, n: Node, l: Life, now: u64)
    requires NoncesOk(w.sealed) && NodeOk(s, w.votes, w.sealed, i, n) && n.life == Some(l)
    ensures EffectOk(s, w, i, Silent(Node(n.journal, Some(l.(situation := Closed(l.situation, now).0)))))
  {
  }

  lemma AdmitOwnOk(s: Setup, w: World, i: u16, n: Node, l: Life, own: seq<byte>, now: u64)
    requires Wired(s.mission) && NoncesOk(w.sealed) && NodeOk(s, w.votes, w.sealed, i, n)
    requires n.life == Some(l) && l.ready == Some(own)
    ensures EffectOk(s, w, i, Silent(
      Node(n.journal, Some(l.(situation := Admit(s.mission, l.situation, own, now).0)))))
  {
    AdmitKeepsCase(s, w.votes, l.situation, own, now);
  }

  lemma NoteOk(s: Setup, w: World, i: u16, n: Node, sender: u16, sequence: u64)
    requires NoncesOk(w.sealed) && NodeOk(s, w.votes, w.sealed, i, n)
    ensures EffectOk(s, w, i, Silent(Node(Perform(n.journal, MarkSeen(sender, sequence)).0, n.life)))
  {
  }

  // ---- one step ----

  lemma DoingOk(s: Setup, w: World, i: u16, n: Node, l: Life, act: Act)
    requires Wired(s.mission) && NoncesOk(w.sealed) && NodeOk(s, w.votes, w.sealed, i, n)
    requires n.life == Some(l) && (act.Receive? ==> Genuine(s, w.votes, act.frame))
    ensures EffectOk(s, w, i, Doing(s.mission, i, n, l, act))
  {
    QuietOk(s, w, i, n);
    match act
    case Utter(stage, verdict, heard, round, reserves) =>
      if stage != StageCode(BindingSupport) {
        UtterOk(s, w, i, n, l, stage, verdict, heard, round, reserves);
      }
    case Cast(choice, heard, round, reserves, commits) =>
      CastOk(s, w, i, n, l, choice, heard, round, reserves, commits);
    case AdmitOwn(now) =>
      if l.ready.Some? {
        AdmitOwnOk(s, w, i, n, l, l.ready.value, now);
      }
    case Receive(frame, now, durable) =>
      ReceivedKeeps(s, w.votes, w.sealed, i, n, frame, now, durable);
      QuietOk(s, w, i, Received(s.mission, n, l, frame, now, durable));
    case Freeze(now) => FreezeOk(s, w, i, n, l, now);
    case Drain(author, now, durable) =>
      if l.situation.phase == CollectingVotes && author in l.early {
        DrainedKeeps(s, w.votes, w.sealed, i, n, author, now, durable);
        QuietOk(s, w, i, Drained(s.mission, n, l, author, now, durable));
      }
    case Resend => OutboxIsGenuine(s, w.votes, i, n.journal);
    case Note(sender, sequence) => NoteOk(s, w, i, n, sender, sequence);
    case _ =>
  }

  lemma DoOk(s: Setup, w: World, i: u16, n: Node, act: Act)
    requires Wired(s.mission) && NoncesOk(w.sealed) && NodeOk(s, w.votes, w.sealed, i, n)
    requires act.Receive? ==> Genuine(s, w.votes, act.frame)
    ensures EffectOk(s, w, i, Do(s.mission, i, n, act))
  {
    if n.life.Some? {
      DoingOk(s, w, i, n, n.life.value, act);
    } else if act == Restart {
      RestartKeeps(s, w.votes, w.sealed, i, n);
      QuietOk(s, w, i, Do(s.mission, i, n, Restart).node);
    } else {
      QuietOk(s, w, i, n);
    }
  }

  lemma NodesStay(s: Setup, w: World, i: u16, effect: Effect, j: u16)
    requires Inv(s, w) && i in w.nodes && j in w.nodes && EffectOk(s, w, i, effect)
    ensures NodeOk(s, VotesAfter(w, i, effect), SealedAfter(w, effect), j,
                   if j == i then effect.node else w.nodes[j])
  {
    if j != i {
      var others := if effect.sealed.Some? then {effect.sealed.value} else {};
      assert SealedAfter(w, effect) == w.sealed + others;
      OthersStay(s, w.votes, VotesAfter(w, i, effect), w.sealed, others, j, w.nodes[j]);
    }
  }

  lemma AirStays(s: Setup, w: World, i: u16, effect: Effect)
    requires Inv(s, w) && EffectOk(s, w, i, effect)
    ensures Extends(w.votes, VotesAfter(w, i, effect))
    ensures forall f :: f in Happens(w, i, effect).air ==> Genuine(s, VotesAfter(w, i, effect), f)
  {
    var votes := VotesAfter(w, i, effect);
    assert Extends(w.votes, votes);
    forall f | f in Happens(w, i, effect).air
      ensures Genuine(s, votes, f)
    {
      GenuineStays(s, w.votes, votes, f);
    }
  }

  /** An effect in order leaves the whole fleet in order. */
  lemma HappensKeepsInv(s: Setup, w: World, i: u16, effect: Effect)
    requires Inv(s, w) && i in w.nodes && EffectOk(s, w, i, effect)
    ensures Inv(s, Happens(w, i, effect))
    ensures Extends(w.votes, VotesAfter(w, i, effect))
  {
    AirStays(s, w, i, effect);
    var after := Happens(w, i, effect);
    forall j | j in after.nodes
      ensures NodeOk(s, after.votes, after.sealed, j, after.nodes[j])
    {
      NodesStay(s, w, i, effect, j);
    }
  }

  lemma InjectableIsGenuine(s: Setup, votes: map<u16, Envelope>, air: set<seq<byte>>, frame: seq<byte>)
    requires forall f :: f in air ==> Genuine(s, votes, f)
    requires Injectable(s, air, frame)
    ensures Genuine(s, votes, frame)
  {
  }

  lemma StepKeepsInv(s: Setup, w: World, step: Step)
    requires Wired(s.mission) && Inv(s, w) && Permitted(s, w, step)
    ensures Inv(s, Next(s, w, step)) && Extends(w.votes, Next(s, w, step).votes)
  {
    match step
    case Inject(frame) => InjectableIsGenuine(s, w.votes, w.air, frame);
    case Take(i, act) =>
      DoOk(s, w, i, w.nodes[i], act);
      HappensKeepsInv(s, w, i, Do(s.mission, i, w.nodes[i], act));
  }

  lemma {:induction false} RunKeepsInv(s: Setup, w: World, steps: seq<Step>)
    requires Wired(s.mission) && Inv(s, w) && Allowed(s, w, steps)
    ensures Inv(s, Run(s, w, steps)) && Extends(w.votes, Run(s, w, steps).votes)
    decreases |steps|
  {
    if steps != [] {
      StepKeepsInv(s, w, steps[0]);
      RunKeepsInv(s, Next(s, w, steps[0]), steps[1..]);
    }
  }
}
