/** What the fleet's model asks of faulty members, derived for the repository's own
    frames from what a signature is worth. */
module Forgery {
  import opened Basics
  import opened Contracts
  import opened CompactFrame
  import opened Member
  import opened Fleet
  import opened FleetSafety
  import Sealing

  /** An honest member's signature verifies over nothing but what that member has
      put on the air, signed, itself. */
  ghost predicate Unforged(
    c: Sealing.Crypto, honest: set<u16>, contentHash: digest, air: set<seq<byte>>,
    author: u16, message: seq<byte>, sig: signature)
  {
    author in honest && c.verify(author, message, sig) ==>
      exists e: Envelope ::
        e.author == author && Transcript(e, contentHash) == message
        && Sealing.FrameOf(c, e, contentHash) in air
  }

  /** Whoever sealed these bytes: the signature they carry is not forged. */
  ghost predicate CarriesNoForgery(
    c: Sealing.Crypto, honest: set<u16>, contentHash: digest, air: set<seq<byte>>, frame: seq<byte>)
  {
    forall s: Signed :: Sealing.Carries(c, frame, s) ==>
      Unforged(c, honest, contentHash, air, s.envelope.author,
               Transcript(s.envelope, contentHash), s.signature)
  }

  /** The fleet's frames are the repository's own. */
  ghost predicate OverRealWire(s: Setup, c: Sealing.Crypto) {
    Sealing.Sound(c)
    && s.mission.wire == RealWire(c, |s.mission.ids|, s.mission.subject.contentHash)
  }

  /** Holding the group key, a faulty member can seal what it likes. If it cannot
      forge signatures, nothing it seals reads as an honest member's envelope that
      this member has not sent. */
  lemma NoForgeryIsInjectable(s: Setup, c: Sealing.Crypto, air: set<seq<byte>>, frame: seq<byte>)
    requires OverRealWire(s, c)
    requires CarriesNoForgery(c, s.honest, s.mission.subject.contentHash, air, frame)
    ensures Injectable(s, air, frame)
  {
    var h, fleet := s.mission.subject.contentHash, |s.mission.ids|;
    var read := s.mission.wire.believes(frame);
    assert read == Sealing.Believed(c, fleet, h, frame);
    if read.Some? && read.value.author in s.honest {
      var e := read.value;
      Sealing.BelievedExactly(c, fleet, h, frame, e);
      var sig: signature :|
        c.verify(e.author, Transcript(e, h), sig) && Sealing.Carries(c, frame, Signed(e, sig));
      assert Unforged(c, s.honest, h, air, e.author, Transcript(e, h), sig);
      var sent: Envelope :|
        sent.author == e.author && Transcript(sent, h) == Transcript(e, h)
        && Sealing.FrameOf(c, sent, h) in air;
      TranscriptInjective(sent, h, e, h);
      Sealing.FrameIsBelieved(c, fleet, h, e);
      assert s.mission.wire.believes(Sealing.FrameOf(c, e, h)) == Some(e);
    }
  }

  /** A step of the fleet, with the network kept from nothing but forging. */
  ghost predicate PermittedUnforged(s: Setup, c: Sealing.Crypto, w: World, step: Step) {
    match step
    case Inject(frame) =>
      CarriesNoForgery(c, s.honest, s.mission.subject.contentHash, w.air, frame)
    case Take(_, _) => Permitted(s, w, step)
  }

  ghost predicate AllowedUnforged(s: Setup, c: Sealing.Crypto, w: World, steps: seq<Step>)
    decreases |steps|
  {
    steps == []
    || (PermittedUnforged(s, c, w, steps[0])
        && (Permitted(s, w, steps[0]) ==> AllowedUnforged(s, c, Next(s, w, steps[0]), steps[1..])))
  }

  lemma {:induction false} UnforgedIsAllowed(s: Setup, c: Sealing.Crypto, w: World, steps: seq<Step>)
    requires OverRealWire(s, c) && AllowedUnforged(s, c, w, steps)
    ensures Allowed(s, w, steps)
    decreases |steps|
  {
    if steps != [] {
      if steps[0].Inject? {
        NoForgeryIsInjectable(s, c, w.air, steps[0].frame);
      }
      UnforgedIsAllowed(s, c, Next(s, w, steps[0]), steps[1..]);
    }
  }

  /** Over the repository's own frames, with any cipher that opens what it sealed
      and signatures nobody can forge: an approving tally means enough honest
      members hold their votes of support. */
  lemma ApprovalIsBackedUnforged(
    s: Setup, c: Sealing.Crypto, w: World, steps: seq<Step>, i: u16)
    requires OverRealWire(s, c) && LawfulSetup(s) && Initial(s, w) && AllowedUnforged(s, c, w, steps)
    ensures Allowed(s, w, steps)
    ensures SeesApproval(s, Run(s, w, steps), i) ==>
      |Backers(s, Run(s, w, steps))| >= s.policy.MinSigners() - s.policy.MaxFaulty() > 0
  {
    UnforgedIsAllowed(s, c, w, steps);
    if SeesApproval(s, Run(s, w, steps), i) {
      ApprovalIsBacked(s, w, steps, i);
    }
  }
}
