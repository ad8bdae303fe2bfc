/** Replays across restarts: the windows in memory over the highest sequences in
    the journal. */
module ReplayGuard {
  import opened Basics
  import opened Journal
  import opened ReplayWindow

  /** A receiver: its journal, and one window for each member of the fleet. */
  datatype Receiver = Receiver(journal: State, windows: seq<Window>)

  function WindowFrom(j: State, sender: int): Window {
    if 0 <= sender < 0x1_0000 && sender in j.seen then Resumed(j.seen[sender]) else NEW
  }

  /** Starting: enter the epoch, then resume every window from the journal. */
  function Started(j: State, epoch: u16, fleet: nat): Receiver {
    var entered := Perform(j, EnterEpoch(epoch)).0;
    Receiver(entered, seq(fleet, i => WindowFrom(entered, i)))
  }

  function IsReplay(r: Receiver, sender: u16, sequence: u64): bool {
    sender as int < |r.windows| && SeenIn(r.windows[sender], sequence)
  }

  function Remembered(r: Receiver, sender: u16, sequence: u64, durable: bool): Receiver
    requires sender as int < |r.windows|
  {
    Receiver(if durable then Perform(r.journal, MarkSeen(sender, sequence)).0 else r.journal,
             r.windows[sender := MarkedIn(r.windows[sender], sequence)])
  }

  /** A frame with this header arrives, and verifies or does not; a frame of our
      own goes out; the process starts again. `durable` says whether the journal
      could record the sequence. */
  datatype Event =
    | Arrives(sender: u16, sequence: u64, verifies: bool, durable: bool)
    | Sends(sender: u16, sequence: u64, durable: bool)
    | Restarts

  /** The frame passes the replay check, is from the fleet and verifies. */
  predicate Passes(r: Receiver, e: Event) {
    e.Arrives? && !IsReplay(r, e.sender, e.sequence) && e.sender as int < |r.windows| && e.verifies
  }

  function Step(r: Receiver, e: Event, epoch: u16): Receiver {
    match e
    case Arrives(sender, sequence, _, durable) =>
      if Passes(r, e) then Remembered(r, sender, sequence, durable) else r
    case Sends(sender, sequence, durable) =>
      if sender as int < |r.windows| then Remembered(r, sender, sequence, durable) else r
    case Restarts => Started(r.journal, epoch, |r.windows|)
  }

  function At(r: Receiver, events: seq<Event>, epoch: u16, i: nat): Receiver
    requires i <= |events|
  {
    if i == 0 then r else Step(At(r, events, epoch, i - 1), events[i - 1], epoch)
  }

  /** The journal has already run under this epoch. */
  ghost predicate Covered(r: Receiver, epoch: u16) {
    r.journal.epoch == Some(epoch)
  }

  /** The journal's own record covers this sequence. */
  predicate Recorded(j: State, sender: u16, sequence: u64) {
    sender in j.seen && sequence <= j.seen[sender]
  }

  lemma StepKeeps(r: Receiver, e: Event, epoch: u16, sender: u16, sequence: u64)
    requires Covered(r, epoch)
    ensures Covered(Step(r, e, epoch), epoch) && |Step(r, e, epoch).windows| == |r.windows|
    ensures IsReplay(r, sender, sequence) && e != Restarts ==>
      IsReplay(Step(r, e, epoch), sender, sequence)
    ensures Recorded(r.journal, sender, sequence) ==> Recorded(Step(r, e, epoch).journal, sender, sequence)
    ensures e == Restarts && Recorded(r.journal, sender, sequence) && sender as int < |r.windows| ==>
      IsReplay(Step(r, e, epoch), sender, sequence)
  {
    match e
    case Arrives(who, what, _, durable) =>
      if Passes(r, e) {
        SeenStays(r.windows[who], what, sequence);
      }
    case Sends(who, what, durable) =>
      if who as int < |r.windows| {
        SeenStays(r.windows[who], what, sequence);
      }
    case Restarts =>
  }

  /** What passed is seen from then on, and is on record if the journal took it. */
  lemma PassedIsSeen(r: Receiver, e: Event, epoch: u16)
    requires Covered(r, epoch) && Passes(r, e)
    ensures IsReplay(Step(r, e, epoch), e.sender, e.sequence)
    ensures e.durable ==> Recorded(Step(r, e, epoch).journal, e.sender, e.sequence)
  {
    SeenStays(r.windows[e.sender], e.sequence, e.sequence);
  }

  lemma {:induction false} RunKeeps(r: Receiver, events: seq<Event>, epoch: u16, i: nat)
    requires Covered(r, epoch) && i <= |events|
    ensures Covered(At(r, events, epoch, i), epoch)
    ensures |At(r, events, epoch, i).windows| == |r.windows|
  {
    if i > 0 {
      RunKeeps(r, events, epoch, i - 1);
      StepKeeps(At(r, events, epoch, i - 1), events[i - 1], epoch, 0, 0);
    }
  }

  /** No restart between the two. */
  predicate OneLife(events: seq<Event>, i: nat, j: nat)
    requires j <= |events|
  {
    forall k :: i < k < j ==> events[k] != Restarts
  }

  lemma {:induction false} StaysSeen(r: Receiver, events: seq<Event>, epoch: u16, i: nat, j: nat)
    requires Covered(r, epoch) && i < j <= |events| && Passes(At(r, events, epoch, i), events[i])
    requires events[i].durable || OneLife(events, i, j)
    ensures IsReplay(At(r, events, epoch, j), events[i].sender, events[i].sequence)
    ensures events[i].durable ==>
      Recorded(At(r, events, epoch, j).journal, events[i].sender, events[i].sequence)
    decreases j
  {
    if j == i + 1 {
      RunKeeps(r, events, epoch, i);
      PassedIsSeen(At(r, events, epoch, i), events[i], epoch);
    } else {
      StaysSeen(r, events, epoch, i, j - 1);
      RunKeeps(r, events, epoch, j - 1);
      RunKeeps(r, events, epoch, i);
      StepKeeps(At(r, events, epoch, j - 1), events[j - 1], epoch,
                events[i].sender, events[i].sequence);
    }
  }

  /** Within an epoch, across any number of restarts, a sequence that verified
      never passes the replay check again; one whose record could not be made
      durable can do so only after a restart. */
  lemma NeverPassesTwice(r: Receiver, events: seq<Event>, epoch: u16, i: nat, j: nat)
    requires Covered(r, epoch) && i < j < |events|
    requires Passes(At(r, events, epoch, i), events[i])
    requires Passes(At(r, events, epoch, j), events[j])
    requires events[i].sender == events[j].sender && events[i].sequence == events[j].sequence
    ensures !events[i].durable && !OneLife(events, i, j)
  {
    if events[i].durable || OneLife(events, i, j) {
      StaysSeen(r, events, epoch, i, j);
    }
  }

  /** And after a restart that lost a record, it does pass again, unless the
      journal had recorded a later sequence of the same sender. */
  lemma LostRecordPassesAgain(j: State, epoch: u16, fleet: nat, sender: u16, sequence: u64)
    requires sender as int < fleet
    ensures var entered := Perform(j, EnterEpoch(epoch)).0;
            (Passes(Started(j, epoch, fleet), Arrives(sender, sequence, true, false))
             <==> !Recorded(entered, sender, sequence))
  {
    var entered := Perform(j, EnterEpoch(epoch)).0;
    if sender in entered.seen && sequence <= entered.seen[sender] {
      var w := Resumed(entered.seen[sender]);
      assert SeenIn(w, sequence);
    }
  }


  /** A process that starts takes a sequence for a replay exactly if its journal has
      run under this epoch and its record covers it: whoever was seen under an
      earlier epoch is new again. */
  lemma NewEpochForgets(j: State, epoch: u16, fleet: nat, sender: u16, sequence: u64)
    requires sender as int < fleet
    ensures IsReplay(Started(j, epoch, fleet), sender, sequence)
       <==> HasRunUnder(j, epoch) && Recorded(j, sender, sequence)
  {
    EnteringForgetsExactly(j, epoch);
    LostRecordPassesAgain(j, epoch, fleet, sender, sequence);
  }

  // ---- what leaves no trace ----

  /** A frame of our own is taken for a replay from then on; what the journal could not
      record is not in it; and a frame that does not pass changes nothing. */
  lemma StepExactly(r: Receiver, e: Event, epoch: u16)
    requires !e.Restarts? && e.sender as int < |r.windows|
    ensures e.Sends? ==> IsReplay(Step(r, e, epoch), e.sender, e.sequence)
    ensures e.Sends? && e.durable ==> Recorded(Step(r, e, epoch).journal, e.sender, e.sequence)
    ensures !e.durable ==> Step(r, e, epoch).journal == r.journal
    ensures e.Arrives? && !Passes(r, e) ==> Step(r, e, epoch) == r
    ensures forall other: u16 :: other != e.sender && other as int < |r.windows| ==>
      Step(r, e, epoch).windows[other] == r.windows[other]
  {
    SeenStays(r.windows[e.sender], e.sequence, e.sequence);
  }

  /** The run without the frames that do not verify. */
  function Verifying(events: seq<Event>): seq<Event> {
    if events == [] then []
    else
      var last := events[|events| - 1];
      Verifying(events[..|events| - 1]) + if last.Arrives? && !last.verifies then [] else [last]
  }

  function After(r: Receiver, events: seq<Event>, epoch: u16): Receiver {
    At(r, events, epoch, |events|)
  }

  lemma {:induction false} AtPrefix(r: Receiver, events: seq<Event>, epoch: u16, i: nat, n: nat)
    requires i <= n <= |events|
    ensures At(r, events[..n], epoch, i) == At(r, events, epoch, i)
  {
    if i > 0 {
      AtPrefix(r, events, epoch, i - 1, n);
    }
  }

  lemma AfterSnoc(r: Receiver, events: seq<Event>, e: Event, epoch: u16)
    ensures After(r, events + [e], epoch) == Step(After(r, events, epoch), e, epoch)
  {
    AtPrefix(r, events + [e], epoch, |events|, |events|);
    assert (events + [e])[..|events|] == events;
  }

  /** In every run, frames that do not verify change nothing at all: whoever cannot
      sign for a member can make none of its frames look like replays. */
  lemma {:induction false} ForgeriesLeaveNoTrace(r: Receiver, events: seq<Event>, epoch: u16)
    ensures After(r, events, epoch) == After(r, Verifying(events), epoch)
    decreases |events|
  {
    if events != [] {
      var front, last := events[..|events| - 1], events[|events| - 1];
      assert events == front + [last];
      AfterSnoc(r, front, last, epoch);
      ForgeriesLeaveNoTrace(r, front, epoch);
      if last.Arrives? && !last.verifies {
        assert Verifying(front) + [] == Verifying(front);
      } else {
        AfterSnoc(r, Verifying(front), last, epoch);
      }
    }
  }
}
