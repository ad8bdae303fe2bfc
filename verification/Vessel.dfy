/** A running member: `build` and `admit` over its journal on disk and its
    case, in place. */
module Vessel {
  import opened Basics
  import opened Contracts
  import opened CompactFrame
  import opened Member
  import CaseMachine
  import Journal
  import LogFormat
  import LogJournal

  /** A vote built on this journal fits its slot and its record is made
      durable. */
  predicate Commits(m: Mission, i: u16, j: Journal.State, choice: Verdict, heard: eight,
                    round: RoundId, append: LogJournal.Append)
    requires i as int < |m.ids|
  {
    var e := EnvelopeOf(m, i, StageCode(BindingSupport), VerdictCode(choice), j.nextSequence,
                        heard, round);
    var frame := Journal.OutgoingFrame(m.wire.frame(e), j.nextSequence, None);
    |frame.bytes| <= MAX_FRAME_BYTES
    && !LogJournal.FailsToPersist(Journal.Perform(j, Journal.ReserveSequence).0,
                                  Journal.CommitVote(m.subject, m.ids[i], frame), append)
  }

  /** The frame adds a vote to the case, and keeping it is made durable. */
  predicate Keeps(m: Mission, j: Journal.State, c: CaseMachine.CaseState, frame: seq<byte>,
                  now: u64, append: LogJournal.Append)
  {
    var learned := Member.Admit(m, c, frame, now).1;
    learned.binding.Some? && learned.binding.value as int < |m.ids|
    && !LogJournal.FailsToPersist(j, Journal.Witness(m.ids[learned.binding.value], frame), append)
  }

  class Vessel {
    const mission: Mission
    const index: u16
    const journal: LogJournal.LogJournal
    const situation: CaseMachine.Case
    var early: map<u16, seq<byte>>
    var ready: Option<seq<byte>>

    ghost predicate Valid()
      reads this, journal
    {
      index as int < |mission.ids| && journal.Valid()
    }

    /** This member as the fleet's model sees it. */
    function Model(): Node
      reads this, journal, situation
    {
      Node(journal.state, Some(Life(situation.Model(), early, ready)))
    }

    /** Begin on a journal that has entered the mission's epoch: hold every vote
        an earlier life had witnessed, and its own. */
    constructor Begin(mission: Mission, index: u16, journal: LogJournal.LogJournal)
      requires index as int < |mission.ids| && journal.Valid()
      ensures this.mission == mission && this.index == index && this.journal == journal
      ensures Valid() && fresh(situation)
      ensures Model() == Node(journal.state, Some(Reborn(mission, index, journal.state)))
    {
      this.mission, this.index, this.journal := mission, index, journal;
      situation := new CaseMachine.Case.OpenUntil(mission.subject, mission.subject.DefaultExpiry());
      early := map a: u16 | a as int < |mission.ids| && mission.ids[a] in journal.state.witnessed
               :: journal.state.witnessed[mission.ids[a]];
      ready := None;
      new;
      if HasVoted(mission, index, journal.state) {
        var own := FirstPending(journal.state);
        if own.Some? {
          early := early[index := own.value];
        }
      }
    }

    /** A frame that carries no vote: an opinion, an opening or a request. */
    method BuildOther(stage: byte, verdict: byte, heard: eight, round: RoundId, io: LogJournal.Io)
      requires Valid() && io.LeavesNothing() && stage != StageCode(BindingSupport)
      modifies this`ready, journal
      ensures Valid()
      ensures var b := Member.BuildOther(
                mission, index, old(journal.state), stage, verdict, heard, round, io.append.Synced?);
              journal.state == b.journal && ready == b.frame
    {
      var sequence := journal.state.nextSequence;
      LogJournal.SmallRecordsEncode(Journal.Sequence(SaturatingAdd(sequence, 1)));
      var reply := journal.ReserveSequence(io);
      if reply.Refused? {
        ready := None;
        return;
      }
      ready := Some(mission.wire.frame(
        EnvelopeOf(mission, index, stage, verdict, sequence, heard, round)));
    }

    /** This member's binding vote, journalled before it is handed over. With
        the lock already held, the committed frame again. */
    method BuildVote(
      choice: Verdict, heard: eight, round: RoundId, reserving: LogJournal.Io, committing: LogJournal.Io)
      requires Valid() && reserving.LeavesNothing() && committing.LeavesNothing()
      modifies this`ready, journal
      ensures Valid()
      ensures var b := Member.BuildVote(
                mission, index, old(journal.state), choice, heard, round, reserving.append.Synced?,
                Commits(mission, index, old(journal.state), choice, heard, round, committing.append));
              journal.state == b.journal && ready == b.frame
    {
      if HasVoted(mission, index, journal.state) {
        ready := FirstPending(journal.state);
        return;
      }
      ready := None;
      var sequence := journal.state.nextSequence;
      LogJournal.SmallRecordsEncode(Journal.Sequence(SaturatingAdd(sequence, 1)));
      var reply := journal.ReserveSequence(reserving);
      if reply.Refused? {
        return;
      }
      var envelope := EnvelopeOf(mission, index, StageCode(BindingSupport), VerdictCode(choice),
                                 sequence, heard, round);
      var sealed := mission.wire.frame(envelope);
      if |sealed| > MAX_FRAME_BYTES {
        return;
      }
      reply := journal.CommitVote(mission.subject, mission.ids[index],
                                  Journal.OutgoingFrame(sealed, sequence, None), committing);
      if reply.Refused? {
        return;
      }
      ready := Some(sealed);
    }

    /** Open, verify and offer a frame to the case. */
    method Admit(frame: seq<byte>, now: u64) returns (learned: Learned)
      modifies situation
      ensures (situation.Model(), learned)
           == Member.Admit(mission, old(situation.Model()), frame, now)
    {
      learned := NOTHING;
      var believed := mission.wire.believes(frame);
      if believed == None {
        return;
      }
      var e := believed.value;
      if !SameSubject(mission, e) || e.author as int >= |mission.ids| {
        return;
      }
      var stage, verdict := StageOf(e.stage), VerdictOf(e.verdict);
      if stage == None || verdict == None {
        return;
      }
      var opinion := Opinion(mission.ids[e.author], mission.subject, stage.value, verdict.value);
      var outcome := situation.Accept(opinion, now);
      if outcome.Ok? && stage.value == BindingSupport {
        learned := learned.(binding := Some(e.author));
      }
      if outcome == Err(CaseMachine.WrongStageForPhase) && stage.value == BindingSupport {
        learned := learned.(tooEarly := Some(e.author));
      }
    }

    /** Take one frame off the air. A vote that came too early is held, one that
        was admitted is journalled as it arrived. */
    method Receive(frame: seq<byte>, now: u64, io: LogJournal.Io)
      requires Valid() && io.LeavesNothing()
      modifies this`early, journal, situation
      ensures Valid()
      ensures Model() == Received(mission, old(Model()), old(Model().life.value), frame, now,
                                  Keeps(mission, old(journal.state), old(situation.Model()),
                                        frame, now, io.append))
    {
      var learned := Admit(frame, now);
      if learned.tooEarly.Some? {
        early := early[learned.tooEarly.value := frame];
      }
      if learned.binding.Some? && learned.binding.value as int < |mission.ids| {
        var _ := journal.Witness(mission.ids[learned.binding.value], frame, io);
      }
    }

    /** Freeze the evidence. */
    method Freeze(now: u64) returns (r: Result<(), CaseMachine.TransitionError>)
      modifies situation
      ensures (situation.Model(), r) == CaseMachine.Closed(old(situation.Model()), now)
    {
      r := situation.CloseConsultation(now);
    }
  }
  /** Start on whatever journal is on disk and enter the mission's epoch. There
      is no process, only the file, when the journal has run under a later epoch
      or the entry cannot be made durable. */
  method Start(mission: Mission, index: u16, disk: seq<byte>, io: LogJournal.Io)
    returns (started: Option<Vessel>, file: seq<byte>)
    requires index as int < |mission.ids| && io.LeavesNothing()
    ensures started.Some? <==>
      !RolledBack(mission, LogFormat.Recovered(disk))
      && !LogJournal.FailsToPersist(LogFormat.Recovered(disk), Journal.EnterEpoch(mission.epoch), io.append)
    ensures started.Some? ==>
      fresh(started.value) && fresh(started.value.journal) && fresh(started.value.situation)
      && started.value.Valid() && started.value.mission == mission && started.value.index == index
      && started.value.Model()
         == Do(mission, index, Node(LogFormat.Recovered(disk), None), Restart).node
      && file == started.value.journal.file
    ensures started == None ==> file == disk[..LogFormat.Kept(disk)]
  {
    var journal := new LogJournal.LogJournal.Open(disk);
    if journal.state.epoch.Some? && mission.epoch < journal.state.epoch.value {
      return None, journal.file;
    }
    var reply := journal.EnterEpoch(mission.epoch, io);
    if reply.Refused? {
      return None, journal.file;
    }
    var vessel := new Vessel.Begin(mission, index, journal);
    return Some(vessel), journal.file;
  }
}
