/** One member of the fleet: how it builds its frames, admits what it hears and
    comes back from a restart. */
module Member {
  import opened Basics
  import opened Postcard
  import opened Contracts
  import opened Journal
  import opened CaseMachine
  import opened CompactFrame
  import LockKey
  import Sealing

  /** How an envelope becomes a frame, and what a receiver believes of a frame. */
  datatype Wire = Wire(frame: Envelope -> seq<byte>, believes: seq<byte> -> Option<Envelope>)

  /** What any member of a fleet of this size puts on the air reads back. */
  ghost predicate Faithful(w: Wire, size: nat) {
    forall e: Envelope :: e.author < size ==> w.believes(w.frame(e)) == Some(e)
  }

  /** The wire this repository uses, over a cipher and a signature scheme. */
  function RealWire(c: Sealing.Crypto, size: nat, contentHash: digest): Wire {
    Wire(e => Sealing.FrameOf(c, e, contentHash), b => Sealing.Believed(c, size, contentHash, b))
  }

  lemma RealWireIsFaithful(c: Sealing.Crypto, size: nat, contentHash: digest)
    requires Sealing.Sound(c)
    ensures Faithful(RealWire(c, size, contentHash), size)
  {
    var w := RealWire(c, size, contentHash);
    forall e: Envelope | e.author < size
      ensures w.believes(w.frame(e)) == Some(e)
    {
      Sealing.FrameIsBelieved(c, size, contentHash, e);
    }
  }

  /** What every member of one fleet is given, and the one subject it
      deliberates. */
  datatype Mission = Mission(
    subject: Subject, ids: seq<text>, epoch: u16, event: u32, revision: u16, caseId: eight,
    wire: Wire)

  // ---- codes on the wire ----

  function StageCode(s: Stage): byte {
    match s
    case Independent => 1
    case Consultation => 2
    case BindingSupport => 3
  }

  function StageOf(code: byte): Option<Stage> {
    match code
    case 1 => Some(Independent)
    case 2 => Some(Consultation)
    case 3 => Some(BindingSupport)
    case _ => None
  }

  function VerdictCode(v: Verdict): byte {
    match v
    case Support => 1
    case Dispute => 2
    case InsufficientData => 3
  }

  function VerdictOf(code: byte): Option<Verdict> {
    match code
    case 1 => Some(Support)
    case 2 => Some(Dispute)
    case 3 => Some(InsufficientData)
    case _ => None
  }

  predicate SameSubject(m: Mission, e: Envelope) {
    e.missionEpoch == m.epoch && e.event == m.event && e.revision == m.revision
    && e.caseId == m.caseId && e.startedAt == m.subject.startedAt
  }

  // ---- building ----

  function EnvelopeOf(
    m: Mission, i: u16, stage: byte, verdict: byte, sequence: u64, heard: eight, round: RoundId): Envelope
  {
    Envelope(m.epoch, m.event, m.revision, m.caseId, m.subject.startedAt, i, stage, verdict,
             sequence, heard, round)
  }

  predicate HasVoted(m: Mission, i: u16, j: State)
    requires i as int < |m.ids|
  {
    LockKey.Key(m.subject, m.ids[i]) in j.locks
  }

  /** The pending frame with the lowest sequence: what `pending().next()` gives. */
  predicate IsLowest(s: u64, keys: set<u64>) {
    s in keys && forall t :: t in keys ==> s <= t
  }

  lemma {:induction false} LowestExists(keys: set<u64>)
    requires keys != {}
    ensures exists s :: IsLowest(s, keys)
    decreases |keys|
  {
    var x :| x in keys;
    if keys == {x} {
      assert IsLowest(x, keys);
    } else {
      assert forall y :: y in keys ==> y == x || y in keys - {x};
      LowestExists(keys - {x});
      var s :| IsLowest(s, keys - {x});
      assert IsLowest(if x < s then x else s, keys);
    }
  }

  function FirstPending(j: State): Option<seq<byte>> {
    if j.pending == map[] then None
    else
      LowestExists(j.pending.Keys);
      var s :| IsLowest(s, j.pending.Keys);
      Some(j.pending[s].bytes)
  }

  /** What a build leaves in the journal, the frame it hands back to be sent,
      and what it sealed on the way, whether or not that ever leaves. */
  datatype Built = Built(journal: State, frame: Option<seq<byte>>, sealed: Option<Envelope>)

  /** A frame that is not a binding vote: an opinion, an opening or a request. */
  function BuildOther(
    m: Mission, i: u16, j: State, stage: byte, verdict: byte, heard: eight, round: RoundId,
    reserves: bool): Built
  {
    if !reserves then Built(j, None, None)
    else
      var e := EnvelopeOf(m, i, stage, verdict, j.nextSequence, heard, round);
      Built(Perform(j, ReserveSequence).0, Some(m.wire.frame(e)), Some(e))
  }

  /** A binding vote: resent from the outbox once the lock is held, and
      otherwise committed, lock and frame together, before it is handed back. */
  function BuildVote(
    m: Mission, i: u16, j: State, verdict: Verdict, heard: eight, round: RoundId,
    reserves: bool, commits: bool): Built
    requires i as int < |m.ids|
  {
    if HasVoted(m, i, j) then Built(j, FirstPending(j), None)
    else if !reserves then Built(j, None, None)
    else
      var sequence := j.nextSequence;
      var e := EnvelopeOf(m, i, StageCode(BindingSupport), VerdictCode(verdict), sequence, heard, round);
      var reserved := Perform(j, ReserveSequence).0;
      if !commits then Built(reserved, None, Some(e))
      else
        var frame := OutgoingFrame(m.wire.frame(e), sequence, None);
        Built(Perform(reserved, CommitVote(m.subject, m.ids[i], frame)).0,
              Some(frame.bytes), Some(e))
  }

  // ---- admitting ----

  /** Whose binding vote a frame added to the case, and whose came before the
      case would take it. */
  datatype Learned = Learned(binding: Option<u16>, tooEarly: Option<u16>)

  const NOTHING: Learned := Learned(None, None)

  function Admit(m: Mission, c: CaseState, frame: seq<byte>, now: u64): (CaseState, Learned) {
    match m.wire.believes(frame)
    case None => (c, NOTHING)
    case Some(e) =>
      if !SameSubject(m, e) || e.author as int >= |m.ids| then (c, NOTHING)
      else
        match (StageOf(e.stage), VerdictOf(e.verdict))
        case (Some(stage), Some(verdict)) =>
          var (after, r) := Accepted(c, Opinion(m.ids[e.author], m.subject, stage, verdict), now);
          (after,
           Learned(if r.Ok? && stage == BindingSupport then Some(e.author) else None,
                   if r == Err(WrongStageForPhase) && stage == BindingSupport then Some(e.author)
                   else None))
        case _ => (c, NOTHING)
  }

  // ---- a member, up or down ----

  /** What lives only as long as the process: the case, votes held until it will
      take them, and the frame last built. */
  datatype Life = Life(situation: CaseState, early: map<u16, seq<byte>>, ready: Option<seq<byte>>)

  datatype Node = Node(journal: State, life: Option<Life>)

  datatype Act =
    | Utter(stage: byte, verdict: byte, heard: eight, round: RoundId, reserves: bool)
    | Cast(choice: Verdict, heard: eight, round: RoundId, reserves: bool, commits: bool)
    | Transmit
    | AdmitOwn(now: u64)
    | Receive(frame: seq<byte>, now: u64, durable: bool)
    | Freeze(now: u64)
    | Drain(author: u16, now: u64, durable: bool)
    | Resend
    | Carry(voter: text)
    | Note(sender: u16, sequence: u64)
    | Crash
    | Restart

  /** What an act leaves of the member, what it puts on the air, what it seals,
      and whether it committed a vote. */
  datatype Effect = Effect(node: Node, sent: Option<seq<byte>>, sealed: Option<Envelope>, voted: bool)

  function Silent(n: Node): Effect {
    Effect(n, None, None, false)
  }

  /** An admitted vote is kept, as it was received, for the next life. */
  function Remember(m: Mission, j: State, l: Learned, frame: seq<byte>, durable: bool): State {
    if l.binding.Some? && l.binding.value as int < |m.ids| && durable
    then Perform(j, Witness(m.ids[l.binding.value], frame)).0
    else j
  }

  /** What a process starts with: the votes it had witnessed, and its own, wait
      for consultation to close again. */
  function Reborn(m: Mission, i: u16, j: State): Life
    requires i as int < |m.ids|
  {
    var held := map a: u16 | a as int < |m.ids| && m.ids[a] in j.witnessed :: j.witnessed[m.ids[a]];
    var own := if HasVoted(m, i, j) then FirstPending(j) else None;
    Life(Opened(m.subject), if own.Some? then held[i := own.value] else held, None)
  }

  function Received(m: Mission, n: Node, l: Life, frame: seq<byte>, now: u64, durable: bool): Node {
    var (after, learned) := Admit(m, l.situation, frame, now);
    var early := if learned.tooEarly.Some? then l.early[learned.tooEarly.value := frame] else l.early;
    Node(Remember(m, n.journal, learned, frame, durable), Some(l.(situation := after, early := early)))
  }

  function Drained(m: Mission, n: Node, l: Life, author: u16, now: u64, durable: bool): Node
    requires author in l.early
  {
    var frame := l.early[author];
    var (after, learned) := Admit(m, l.situation, frame, now);
    Node(Remember(m, n.journal, learned, frame, durable),
         Some(l.(situation := after, early := l.early - {author})))
  }

  /** What a process that is up does. */
  function Doing(m: Mission, i: u16, n: Node, l: Life, act: Act): Effect
    requires i as int < |m.ids|
  {
    match act
    case Utter(stage, verdict, heard, round, reserves) =>
      if stage == StageCode(BindingSupport) then Silent(n)
      else
        var b := BuildOther(m, i, n.journal, stage, verdict, heard, round, reserves);
        Effect(Node(b.journal, Some(l.(ready := b.frame))), None, b.sealed, false)
    case Cast(verdict, heard, round, reserves, commits) =>
      if l.situation.phase == Consulting then Silent(n)
      else
        var b := BuildVote(m, i, n.journal, verdict, heard, round, reserves, commits);
        Effect(Node(b.journal, Some(l.(ready := b.frame))), None, b.sealed,
               b.sealed.Some? && b.frame.Some?)
    case Transmit => Effect(n, l.ready, None, false)
    case AdmitOwn(now) =>
      if l.ready == None then Silent(n)
      else
        Silent(Node(n.journal, Some(l.(situation := Admit(m, l.situation, l.ready.value, now).0))))
    case Receive(frame, now, durable) => Silent(Received(m, n, l, frame, now, durable))
    case Freeze(now) =>
      Silent(Node(n.journal, Some(l.(situation := Closed(l.situation, now).0))))
    case Drain(author, now, durable) =>
      if l.situation.phase == CollectingVotes && author in l.early
      then Silent(Drained(m, n, l, author, now, durable))
      else Silent(n)
    case Resend =>
      Effect(n, if HasVoted(m, i, n.journal) then FirstPending(n.journal) else None, None, false)
    case Carry(author) =>
      Effect(n, if author in n.journal.witnessed then Some(n.journal.witnessed[author]) else None,
             None, false)
    case Note(sender, sequence) =>
      Silent(Node(Perform(n.journal, MarkSeen(sender, sequence)).0, n.life))
    case Crash => Silent(Node(n.journal, None))
    case Restart => Silent(n)
  }

  /** The journal has run under a later epoch than the mission's. A process
      refuses to start on it. */
  predicate RolledBack(m: Mission, j: State) {
    j.epoch.Some? && m.epoch < j.epoch.value
  }

  function Do(m: Mission, i: u16, n: Node, act: Act): Effect
    requires i as int < |m.ids|
  {
    match n.life
    case Some(life) => Doing(m, i, n, life, act)
    case None =>
      if act != Restart || RolledBack(m, n.journal) then Silent(n)
      else
        var j := Perform(n.journal, EnterEpoch(m.epoch)).0;
        Silent(Node(j, Some(Reborn(m, i, j))))
  }
}
