/** A tally survives its member: what a process had witnessed is counted again
    by the process that takes its place. */
module Recount {
  import opened Basics
  import opened Postcard
  import opened Contracts
  import opened Journal
  import opened CaseMachine
  import opened Member

  /** The bytes read as member `a`'s binding vote on this mission's subject. */
  predicate VoteOf(m: Mission, a: u16, frame: seq<byte>) {
    match m.wire.believes(frame)
    case None => false
    case Some(e) =>
      e.author == a && e.stage == StageCode(BindingSupport) && SameSubject(m, e)
      && VerdictOf(e.verdict).Some?
  }

  function VerdictIn(m: Mission, a: u16, frame: seq<byte>): Verdict
    requires VoteOf(m, a, frame)
  {
    VerdictOf(m.wire.believes(frame).value.verdict).value
  }

  predicate DistinctIds(m: Mission) {
    forall i, j :: 0 <= i < j < |m.ids| ==> m.ids[i] != m.ids[j]
  }

  /** Whatever the journal keeps under a member's name is that member's vote. */
  ghost predicate WitnessOk(m: Mission, j: State) {
    forall a: u16 :: a as int < |m.ids| && m.ids[a] in j.witnessed ==>
      VoteOf(m, a, j.witnessed[m.ids[a]])
  }

  lemma AdmittedIsVote(m: Mission, c: CaseState, frame: seq<byte>, now: u64)
    ensures var learned := Admit(m, c, frame, now).1;
            learned.binding.Some? ==>
              VoteOf(m, learned.binding.value, frame) && learned.binding.value as int < |m.ids|
    ensures var learned := Admit(m, c, frame, now).1;
            learned.tooEarly.Some? ==> VoteOf(m, learned.tooEarly.value, frame)
  {
  }

  lemma RememberKeepsWitnesses(m: Mission, j: State, l: Learned, frame: seq<byte>, durable: bool)
    requires DistinctIds(m) && WitnessOk(m, j)
    requires l.binding.Some? ==> VoteOf(m, l.binding.value, frame)
    ensures WitnessOk(m, Remember(m, j, l, frame, durable))
  {
    var after := Remember(m, j, l, frame, durable);
    if after.witnessed != j.witnessed {
      var author := l.binding.value;
      forall a: u16 | a as int < |m.ids| && m.ids[a] in after.witnessed
        ensures VoteOf(m, a, after.witnessed[m.ids[a]])
      {
        if m.ids[a] == m.ids[author] {
          assert a == author;
        }
      }
    }
  }

  /** The journal never keeps anything else under a member's name, whatever the
      process does, receives or dies of. */
  lemma ActKeepsWitnesses(m: Mission, i: u16, n: Node, act: Act)
    requires i as int < |m.ids| && DistinctIds(m) && WitnessOk(m, n.journal)
    ensures WitnessOk(m, Do(m, i, n, act).node.journal)
  {
    if n.life.Some? {
      var l := n.life.value;
      match act
      case Receive(frame, now, durable) =>
        AdmittedIsVote(m, l.situation, frame, now);
        RememberKeepsWitnesses(m, n.journal, Admit(m, l.situation, frame, now).1, frame, durable);
      case Drain(author, now, durable) =>
        if author in l.early {
          var frame := l.early[author];
          AdmittedIsVote(m, l.situation, frame, now);
          RememberKeepsWitnesses(m, n.journal, Admit(m, l.situation, frame, now).1, frame, durable);
        }
      case Cast(choice, heard, round, reserves, commits) =>
        assert BuildVote(m, i, n.journal, choice, heard, round, reserves, commits).journal.witnessed
            == n.journal.witnessed;
      case Utter(stage, verdict, heard, round, reserves) =>
        assert BuildOther(m, i, n.journal, stage, verdict, heard, round, reserves).journal.witnessed
            == n.journal.witnessed;
      case _ =>
    }
  }

  // ---- counting again ----

  function Acts(m: Mission, i: u16, n: Node, acts: seq<Act>): Node
    requires i as int < |m.ids|
    decreases |acts|
  {
    if acts == [] then n else Acts(m, i, Do(m, i, n, acts[0]).node, acts[1..])
  }

  lemma ActsInRow(m: Mission, i: u16, n: Node, a: Act, rest: seq<Act>)
    requires i as int < |m.ids|
    ensures Acts(m, i, n, [a] + rest) == Acts(m, i, Do(m, i, n, a).node, rest)
    ensures Acts(m, i, n, []) == n
  {
    assert ([a] + rest)[1..] == rest;
  }

  function Drains(order: seq<u16>, now: u64): seq<Act> {
    if order == [] then [] else [Drain(order[0], now, true)] + Drains(order[1..], now)
  }

  /** The case once a binding vote by each of `order` has been counted. */
  function Counting(m: Mission, c: CaseState, held: map<u16, seq<byte>>, order: seq<u16>, now: u64)
    : CaseState
    decreases |order|
  {
    if order == [] then c
    else
      var a := order[0];
      Counting(m, if a in held then Admit(m, c, held[a], now).0 else c, held, order[1..], now)
  }

  ghost predicate Each(order: seq<u16>) {
    forall i, j :: 0 <= i < j < |order| ==> order[i] != order[j]
  }

  /** Draining is counting: the acts reach the case that `Counting` gives. */
  lemma {:induction false} DrainsCount(
    m: Mission, i: u16, n: Node, held: map<u16, seq<byte>>, order: seq<u16>, now: u64)
    requires i as int < |m.ids| && n.life.Some? && Each(order)
    requires n.life.value.situation.phase == CollectingVotes
    requires forall k :: 0 <= k < |order| ==>
      order[k] in held && order[k] in n.life.value.early
      && n.life.value.early[order[k]] == held[order[k]]
    ensures Acts(m, i, n, Drains(order, now)).life.Some?
    ensures Acts(m, i, n, Drains(order, now)).life.value.situation
         == Counting(m, n.life.value.situation, held, order, now)
    decreases |order|
  {
    if order != [] {
      var rest := order[1..];
      var after := DrainOne(m, i, n, order[0], now);
      assert Drains(order, now)[1..] == Drains(rest, now);
      forall k | 0 <= k < |rest|
        ensures rest[k] in after.life.value.early && after.life.value.early[rest[k]] == held[rest[k]]
      {
        assert rest[k] == order[k + 1] != order[0];
      }
      DrainsCount(m, i, after, held, rest, now);
    }
  }

  lemma DrainOne(m: Mission, i: u16, n: Node, a: u16, now: u64) returns (after: Node)
    requires i as int < |m.ids| && n.life.Some? && a in n.life.value.early
    requires n.life.value.situation.phase == CollectingVotes
    ensures after == Do(m, i, n, Drain(a, now, true)).node && after.life.Some?
    ensures after.life.value.situation
         == Admit(m, n.life.value.situation, n.life.value.early[a], now).0
    ensures after.life.value.situation.phase == CollectingVotes
    ensures after.life.value.early == n.life.value.early - {a}
  {
    after := Do(m, i, n, Drain(a, now, true)).node;
  }

  /** Now is a time at which the case takes binding votes. */
  predicate Open(c: CaseState, now: u64) {
    c.phase == CollectingVotes && !CertainlyAfter(now, c.expiresAt) && !UncertainAbout(now, c.expiresAt)
  }

  lemma CountOne(m: Mission, c: CaseState, a: u16, frame: seq<byte>, now: u64)
    requires a as int < |m.ids| && VoteOf(m, a, frame) && c.subject == m.subject
    requires Open(c, now) && m.ids[a] !in c.voted
    ensures Admit(m, c, frame, now).0
         == c.(voted := c.voted + {m.ids[a]},
               binding := c.binding + [Opinion(m.ids[a], m.subject, BindingSupport,
                                               VerdictIn(m, a, frame))])
  {
  }

  /** The members of `order` whose held vote is one of support. */
  function Supporting(m: Mission, held: map<u16, seq<byte>>, order: seq<u16>): set<text> {
    set k | 0 <= k < |order| && order[k] as int < |m.ids| && order[k] in held
            && VoteOf(m, order[k], held[order[k]])
            && VerdictIn(m, order[k], held[order[k]]) == Support :: m.ids[order[k]]
  }

  /** The names of these members. */
  function NamesOf(m: Mission, order: seq<u16>): set<text> {
    set k | 0 <= k < |order| && order[k] as int < |m.ids| :: m.ids[order[k]]
  }

  lemma NamesCons(m: Mission, order: seq<u16>)
    requires order != [] && order[0] as int < |m.ids|
    ensures NamesOf(m, order) == {m.ids[order[0]]} + NamesOf(m, order[1..])
  {
    var rest := order[1..];
    forall id | id in NamesOf(m, order)
      ensures id == m.ids[order[0]] || id in NamesOf(m, rest)
    {
      var k :| 0 <= k < |order| && order[k] as int < |m.ids| && m.ids[order[k]] == id;
      if k > 0 {
        assert rest[k - 1] == order[k];
      }
    }
    forall id | id in NamesOf(m, rest)
      ensures id in NamesOf(m, order)
    {
      var k :| 0 <= k < |rest| && rest[k] as int < |m.ids| && m.ids[rest[k]] == id;
      assert order[k + 1] == rest[k];
    }
  }

  lemma SupportersSnoc(c: CaseState, o: Opinion)
    ensures Supporters(c.(voted := c.voted + {o.author}, binding := c.binding + [o]))
         == Supporters(c) + if o.verdict == Support then {o.author} else {}
  {
    var all := c.binding + [o];
    var after := c.(voted := c.voted + {o.author}, binding := all);
    assert all[|c.binding|] == o;
    forall id | id in Supporters(c)
      ensures id in Supporters(after)
    {
      var k :| 0 <= k < |c.binding| && c.binding[k].verdict == Support && c.binding[k].author == id;
      assert all[k].verdict == Support && all[k].author == id;
    }
  }

  lemma SupportingCons(m: Mission, held: map<u16, seq<byte>>, order: seq<u16>)
    requires order != [] && order[0] as int < |m.ids| && order[0] in held
    requires VoteOf(m, order[0], held[order[0]])
    ensures Supporting(m, held, order)
         == (if VerdictIn(m, order[0], held[order[0]]) == Support then {m.ids[order[0]]} else {})
            + Supporting(m, held, order[1..])
  {
    var rest := order[1..];
    assert forall k :: 0 <= k < |rest| ==> rest[k] == order[k + 1];
    forall id | id in Supporting(m, held, rest)
      ensures id in Supporting(m, held, order)
    {
      var k :| 0 <= k < |rest| && rest[k] as int < |m.ids| && rest[k] in held
        && VoteOf(m, rest[k], held[rest[k]])
        && VerdictIn(m, rest[k], held[rest[k]]) == Support && m.ids[rest[k]] == id;
      assert order[k + 1] == rest[k];
    }
    forall id | id in Supporting(m, held, order)
      ensures id in Supporting(m, held, rest)
           || (id == m.ids[order[0]] && VerdictIn(m, order[0], held[order[0]]) == Support)
    {
      var k :| 0 <= k < |order| && order[k] as int < |m.ids| && order[k] in held
        && VoteOf(m, order[k], held[order[k]])
        && VerdictIn(m, order[k], held[order[k]]) == Support && m.ids[order[k]] == id;
      if k > 0 {
        assert rest[k - 1] == order[k];
      }
    }
  }

  /** Each of these members' votes is held, and the case has none of them yet. */
  ghost predicate Countable(m: Mission, c: CaseState, held: map<u16, seq<byte>>, order: seq<u16>) {
    forall k :: 0 <= k < |order| ==>
      order[k] as int < |m.ids| && order[k] in held && VoteOf(m, order[k], held[order[k]])
      && m.ids[order[k]] !in c.voted
  }

  lemma CountableRest(
    m: Mission, c: CaseState, held: map<u16, seq<byte>>, order: seq<u16>, after: CaseState)
    requires DistinctIds(m) && Each(order) && Countable(m, c, held, order) && order != []
    requires after.voted == c.voted + {m.ids[order[0]]}
    ensures Countable(m, after, held, order[1..])
  {
    var rest := order[1..];
    forall k | 0 <= k < |rest|
      ensures m.ids[rest[k]] !in after.voted
    {
      assert rest[k] == order[k + 1] != order[0];
    }
  }

  lemma CountableFromNothing(m: Mission, c: CaseState, held: map<u16, seq<byte>>, order: seq<u16>)
    requires c.voted == {} && (forall a :: a in order ==> a in held)
    requires forall a :: a in held ==> a as int < |m.ids| && VoteOf(m, a, held[a])
    ensures Countable(m, c, held, order)
  {
    forall k | 0 <= k < |order|
      ensures order[k] in held
    {
      assert order[k] in order;
    }
  }

  /** Counting held votes counts each of them, as it was cast. */
  lemma {:induction false} CountingCounts(
    m: Mission, c: CaseState, held: map<u16, seq<byte>>, order: seq<u16>, now: u64)
    requires DistinctIds(m) && Each(order) && Open(c, now) && c.subject == m.subject
    requires Countable(m, c, held, order)
    ensures Supporters(Counting(m, c, held, order, now))
         == Supporters(c) + Supporting(m, held, order)
    decreases |order|
  {
    if order != [] {
      var a, rest := order[0], order[1..];
      var o := Opinion(m.ids[a], m.subject, BindingSupport, VerdictIn(m, a, held[a]));
      var after := c.(voted := c.voted + {m.ids[a]}, binding := c.binding + [o]);
      CountOne(m, c, a, held[a], now);
      CountableRest(m, c, held, order, after);
      CountingCounts(m, after, held, rest, now);
      SupportersSnoc(c, o);
      SupportingCons(m, held, order);
    }
  }

  /** And nobody else. */
  lemma {:induction false} CountingNames(
    m: Mission, c: CaseState, held: map<u16, seq<byte>>, order: seq<u16>, now: u64)
    requires DistinctIds(m) && Each(order) && Open(c, now) && c.subject == m.subject
    requires Countable(m, c, held, order)
    ensures Counting(m, c, held, order, now).voted == c.voted + NamesOf(m, order)
    decreases |order|
  {
    if order != [] {
      var a, rest := order[0], order[1..];
      var o := Opinion(m.ids[a], m.subject, BindingSupport, VerdictIn(m, a, held[a]));
      var after := c.(voted := c.voted + {m.ids[a]}, binding := c.binding + [o]);
      CountOne(m, c, a, held[a], now);
      CountableRest(m, c, held, order, after);
      CountingNames(m, after, held, rest, now);
      NamesCons(m, order);
    }
  }

  // ---- a restart ----

  /** What a process finds when it starts: the votes it had witnessed, and its
      own if it holds one. */
  lemma RebornHolds(m: Mission, i: u16, j: State)
    requires i as int < |m.ids| && WitnessOk(m, j)
    requires FirstPending(j).Some? ==> VoteOf(m, i, FirstPending(j).value)
    ensures var held := Reborn(m, i, j).early;
            forall a :: a in held ==> a as int < |m.ids| && VoteOf(m, a, held[a])
    ensures var held := Reborn(m, i, j).early;
            forall a: u16 :: a as int < |m.ids| && m.ids[a] in j.witnessed ==> a in held
  {
  }

  /** The votes a process that starts on this journal holds. */
  function StartsWith(m: Mission, i: u16, n: Node): map<u16, seq<byte>>
    requires i as int < |m.ids|
  {
    Reborn(m, i, Perform(n.journal, EnterEpoch(m.epoch)).0).early
  }

  lemma StartsWithVotes(m: Mission, i: u16, n: Node)
    requires i as int < |m.ids| && WitnessOk(m, n.journal)
    requires FirstPending(n.journal).Some? ==> VoteOf(m, i, FirstPending(n.journal).value)
    ensures forall a :: a in StartsWith(m, i, n) ==>
      a as int < |m.ids| && VoteOf(m, a, StartsWith(m, i, n)[a])
    ensures forall a: u16 :: a as int < |m.ids| && m.ids[a] in n.journal.witnessed ==>
      a in StartsWith(m, i, n)
  {
    var j := Perform(n.journal, EnterEpoch(m.epoch)).0;
    assert WitnessOk(m, j) && FirstPending(j) == FirstPending(n.journal);
    RebornHolds(m, i, j);
  }

  lemma ComeBack(m: Mission, i: u16, n: Node, now: u64) returns (up: Node)
    requires i as int < |m.ids| && n.life == None && !RolledBack(m, n.journal)
    requires CertainlyAfter(now, m.subject.ConsultationCutoff())
    ensures up == Do(m, i, Do(m, i, n, Restart).node, Freeze(now)).node && up.life.Some?
    ensures up.life.value.early == StartsWith(m, i, n)
    ensures up.life.value.situation == Opened(m.subject).(phase := CollectingVotes)
  {
    up := Do(m, i, Do(m, i, n, Restart).node, Freeze(now)).node;
  }

  lemma {:induction false} StaysDown(m: Mission, i: u16, n: Node, acts: seq<Act>)
    requires i as int < |m.ids| && n.life == None && RolledBack(m, n.journal)
    ensures Acts(m, i, n, acts) == n
    decreases |acts|
  {
    if acts != [] {
      StaysDown(m, i, n, acts[1..]);
    }
  }

  /** A member that went down comes back, unless its journal has run under a later
      epoch, to exactly the supporters its journal witnessed, its own vote among
      them, whatever order it offers them in. */
  lemma TallySurvives(m: Mission, i: u16, n: Node, now: u64, order: seq<u16>)
    requires i as int < |m.ids| && DistinctIds(m) && n.life == None && WitnessOk(m, n.journal)
    requires FirstPending(n.journal).Some? ==> VoteOf(m, i, FirstPending(n.journal).value)
    requires CertainlyAfter(now, m.subject.ConsultationCutoff())
    requires CertainlyBefore(now, m.subject.DefaultExpiry())
    requires Each(order) && (forall a :: a in order <==> a in StartsWith(m, i, n))
    ensures var back := Acts(m, i, n, [Restart, Freeze(now)] + Drains(order, now));
            (back.life.Some? <==> !RolledBack(m, n.journal))
            && (back.life.Some? ==>
                 Supporters(back.life.value.situation) == Supporting(m, StartsWith(m, i, n), order)
                 && back.life.value.situation.voted == NamesOf(m, order))
  {
    if RolledBack(m, n.journal) {
      StaysDown(m, i, n, [Restart, Freeze(now)] + Drains(order, now));
      return;
    }
    StartsWithVotes(m, i, n);
    var up := ComeBack(m, i, n, now);
    TwoThenTheRest(m, i, n, now, Drains(order, now));
    UpCounts(m, i, up, StartsWith(m, i, n), order, now);
  }

  lemma UpReaches(
    m: Mission, i: u16, up: Node, held: map<u16, seq<byte>>, order: seq<u16>, now: u64)
    requires i as int < |m.ids| && up.life.Some? && up.life.value.early == held
    requires up.life.value.situation.phase == CollectingVotes
    requires Each(order) && (forall a :: a in order <==> a in held)
    ensures Acts(m, i, up, Drains(order, now)).life.Some?
    ensures Acts(m, i, up, Drains(order, now)).life.value.situation
         == Counting(m, up.life.value.situation, held, order, now)
  {
    forall k | 0 <= k < |order|
      ensures order[k] in held
    {
      assert order[k] in order;
    }
    DrainsCount(m, i, up, held, order, now);
  }

  lemma CountingFromNothing(
    m: Mission, c: CaseState, held: map<u16, seq<byte>>, order: seq<u16>, now: u64)
    requires DistinctIds(m) && c == Opened(m.subject).(phase := CollectingVotes)
    requires CertainlyBefore(now, m.subject.DefaultExpiry())
    requires Each(order) && (forall a :: a in order <==> a in held)
    requires forall a :: a in held ==> a as int < |m.ids| && VoteOf(m, a, held[a])
    ensures Supporters(Counting(m, c, held, order, now)) == Supporting(m, held, order)
    ensures Counting(m, c, held, order, now).voted == NamesOf(m, order)
  {
    CountableFromNothing(m, c, held, order);
    CountingCounts(m, c, held, order, now);
    CountingNames(m, c, held, order, now);
    assert Supporters(c) == {} && c.voted == {};
  }

  lemma UpCounts(
    m: Mission, i: u16, up: Node, held: map<u16, seq<byte>>, order: seq<u16>, now: u64)
    requires i as int < |m.ids| && DistinctIds(m) && up.life.Some? && up.life.value.early == held
    requires up.life.value.situation == Opened(m.subject).(phase := CollectingVotes)
    requires CertainlyBefore(now, m.subject.DefaultExpiry())
    requires Each(order) && (forall a :: a in order <==> a in held)
    requires forall a :: a in held ==> a as int < |m.ids| && VoteOf(m, a, held[a])
    ensures Acts(m, i, up, Drains(order, now)).life.Some?
    ensures Supporters(Acts(m, i, up, Drains(order, now)).life.value.situation)
         == Supporting(m, held, order)
    ensures Acts(m, i, up, Drains(order, now)).life.value.situation.voted == NamesOf(m, order)
  {
    UpReaches(m, i, up, held, order, now);
    CountingFromNothing(m, up.life.value.situation, held, order, now);
  }

  lemma TwoThenTheRest(m: Mission, i: u16, n: Node, now: u64, rest: seq<Act>)
    requires i as int < |m.ids|
    ensures Acts(m, i, n, [Restart, Freeze(now)] + rest)
         == Acts(m, i, Do(m, i, Do(m, i, n, Restart).node, Freeze(now)).node, rest)
  {
    var acts := [Restart, Freeze(now)] + rest;
    assert acts[1..] == [Freeze(now)] + rest;
    assert acts[1..][1..] == rest;
  }
}
