/** The bridge against the direct bus: the same buffers, through two framings
    and a device on the far side of the cable. */
module Transparency {
  import opened Basics
  import opened SpiBus
  import opened Bridge
  import Kiss

  // ---- the cable ----

  /** What the device sends for the frames it reads. Other requests are not part
      of this model. */
  function DeviceSends(execute: (byte, seq<byte>) -> seq<byte>, frames: seq<seq<byte>>): seq<Kiss.Frame> {
    if frames == [] then []
    else
      (if frames[0] != [] && frames[0][0] == SPI
       then [Kiss.Frame(SPI_REPLY, DeviceReply(execute, frames[0][1..]))] else [])
      + DeviceSends(execute, frames[1..])
  }

  /** The first frame that answers an SPI request. Notices are passed over, an
      error that names another command too; silence is a timeout. */
  function ReadReply(frames: seq<seq<byte>>): Result<seq<byte>, BridgeError> {
    if frames == [] then Err(Timeout)
    else
      var f := frames[0];
      if f != [] && f[0] == SPI_REPLY then Ok(f[1..])
      else if f != [] && f[0] == EVENT_ERROR && (|f| <= 2 || f[2] == SPI) then
        Err(Device(if |f| > 1 then f[1] else 0))
      else ReadReply(frames[1..])
  }

  /** The host goes by this frame: a reply, or an error that names no other command. */
  predicate Decides(frame: seq<byte>) {
    frame != []
    && (frame[0] == SPI_REPLY
        || (frame[0] == EVENT_ERROR && (|frame| <= 2 || frame[2] == SPI)))
  }

  /** The first frame that decides is the answer, whatever else came before it or
      comes after; without one the request times out. */
  lemma {:induction false} FirstDecides(frames: seq<seq<byte>>, k: nat)
    requires k <= |frames| && forall i :: 0 <= i < k ==> !Decides(frames[i])
    ensures k == |frames| ==> ReadReply(frames) == Err(Timeout)
    ensures k < |frames| && Decides(frames[k]) ==>
      ReadReply(frames) == if frames[k][0] == SPI_REPLY then Ok(frames[k][1..])
                           else if |frames[k]| == 1 then Err(Device(0))
                           else Err(Device(frames[k][1]))
  {
    if k > 0 {
      assert !Decides(frames[0]);
      FirstDecides(frames[1..], k - 1);
    }
  }

  function Requests(payloads: seq<seq<byte>>): (r: seq<seq<byte>>)
    ensures |r| == |payloads| && forall i :: 0 <= i < |payloads| ==> r[i] == [SPI] + payloads[i]
  {
    seq(|payloads|, i requires 0 <= i < |payloads| => [SPI] + payloads[i])
  }

  /** The device answers every request, in order, and nothing else. */
  lemma {:induction false} EveryRequestIsAnswered(
    execute: (byte, seq<byte>) -> seq<byte>, payloads: seq<seq<byte>>, i: nat)
    requires i < |payloads|
    ensures |DeviceSends(execute, Requests(payloads))| == |payloads|
    ensures DeviceSends(execute, Requests(payloads))[i]
         == Kiss.Frame(SPI_REPLY, DeviceReply(execute, payloads[i]))
  {
    var rest := payloads[1..];
    assert Requests(payloads)[1..] == Requests(rest);
    assert ([SPI] + payloads[0])[1..] == payloads[0];
    if rest != [] {
      EveryRequestIsAnswered(execute, rest, if i > 0 then i - 1 else 0);
    } else {
      assert Requests(rest) == [];
    }
  }

  lemma {:induction false} OnlyRequestsAreAnswered(
    execute: (byte, seq<byte>) -> seq<byte>, frames: seq<seq<byte>>)
    requires forall i :: 0 <= i < |frames| ==> frames[i] == [] || frames[i][0] != SPI
    ensures DeviceSends(execute, frames) == []
  {
    if frames != [] {
      OnlyRequestsAreAnswered(execute, frames[1..]);
    }
  }

  /** Both ends of the cable between frames, and the DIO1 notices that reach the
      host before the reply. */
  datatype Cable = Cable(device: Kiss.Stream, host: Kiss.Stream, notices: seq<Kiss.Frame>)
  {
    predicate Idle() {
      Kiss.Leftover(device) == [] && Kiss.Leftover(host) == []
      && forall i :: 0 <= i < |notices| ==> notices[i].command == EVENT_DIO1
    }
  }

  /** A request out, its reply back. */
  function Called(execute: (byte, seq<byte>) -> seq<byte>, c: Cable, payload: seq<byte>)
    : Result<seq<byte>, BridgeError>
  {
    var read := Kiss.FedAll(c.device, FRAME_LIMIT, Kiss.Framed(SPI, payload)).1;
    var sent := c.notices + DeviceSends(execute, read);
    ReadReply(Kiss.FedAll(c.host, FRAME_LIMIT, Kiss.FramedAll(sent)).1)
  }

  lemma DeviceReads(execute: (byte, seq<byte>) -> seq<byte>, c: Cable, payload: seq<byte>)
    requires c.Idle()
    ensures DeviceSends(execute, Kiss.FedAll(c.device, FRAME_LIMIT, Kiss.Framed(SPI, payload)).1)
         == if 1 + |payload| <= FRAME_LIMIT then [Kiss.Frame(SPI_REPLY, DeviceReply(execute, payload))]
            else []
  {
    Kiss.FrameComesOut(c.device, FRAME_LIMIT, SPI, payload);
    if 1 + |payload| <= FRAME_LIMIT {
      var f := [SPI] + payload;
      assert f[1..] == payload;
      var frames: seq<seq<byte>> := [f];
      assert frames[1..] == [];
      assert Kiss.Delivered(c.device, FRAME_LIMIT, SPI, payload) == frames;
      assert DeviceSends(execute, frames) == [Kiss.Frame(SPI_REPLY, DeviceReply(execute, f[1..]))];
    }
  }

  /** Notices before the reply do not matter. */
  lemma {:induction false} NoticesPass(notices: seq<Kiss.Frame>, rest: seq<Kiss.Frame>)
    requires forall i :: 0 <= i < |notices| ==> notices[i].command == EVENT_DIO1
    ensures ReadReply(Kiss.Within(notices + rest, FRAME_LIMIT))
         == ReadReply(Kiss.Within(rest, FRAME_LIMIT))
  {
    if notices == [] {
      assert notices + rest == rest;
    } else {
      assert (notices + rest)[1..] == notices[1..] + rest;
      NoticesPass(notices[1..], rest);
      SkipNotice(notices[0], notices[1..] + rest);
      assert [notices[0]] + (notices[1..] + rest) == notices + rest;
    }
  }

  lemma SkipNotice(f: Kiss.Frame, rest: seq<Kiss.Frame>)
    requires f.command == EVENT_DIO1
    ensures ReadReply(Kiss.Within([f] + rest, FRAME_LIMIT)) == ReadReply(Kiss.Within(rest, FRAME_LIMIT))
  {
    assert ([f] + rest)[1..] == rest;
    var frame := [f.command] + f.payload;
    var later := Kiss.Within(rest, FRAME_LIMIT);
    if 1 + |f.payload| <= FRAME_LIMIT {
      assert ([frame] + later)[1..] == later;
    } else {
      assert [] + later == later;
    }
  }

  lemma OneReply(payload: seq<byte>)
    ensures ReadReply(Kiss.Within([Kiss.Frame(SPI_REPLY, payload)], FRAME_LIMIT))
         == if 1 + |payload| <= FRAME_LIMIT then Ok(payload) else Err(Timeout)
  {
    var f := Kiss.Frame(SPI_REPLY, payload);
    assert [f][1..] == [];
    if 1 + |payload| <= FRAME_LIMIT {
      assert Kiss.Within([f], FRAME_LIMIT) == [[SPI_REPLY] + payload];
      assert ([SPI_REPLY] + payload)[1..] == payload;
    } else {
      assert Kiss.Within([f], FRAME_LIMIT) == [];
    }
  }

  lemma HostReads(c: Cable, sent: seq<Kiss.Frame>)
    requires c.Idle() && |sent| <= 1 && (sent == [] || sent[0].command == SPI_REPLY)
    ensures ReadReply(Kiss.FedAll(c.host, FRAME_LIMIT, Kiss.FramedAll(c.notices + sent)).1)
         == ReadReply(Kiss.Within(sent, FRAME_LIMIT))
  {
    NoticesPass(c.notices, sent);
    var all := c.notices + sent;
    if all == [] {
      assert sent == [];
    } else {
      Kiss.StreamComesOut(c.host, FRAME_LIMIT, all);
      assert [] + Kiss.Within(all, FRAME_LIMIT) == Kiss.Within(all, FRAME_LIMIT);
    }
  }

  /** The cable carries a request and its reply exactly when each fits a frame;
      otherwise the host waits in vain. */
  lemma CableCarries(execute: (byte, seq<byte>) -> seq<byte>, c: Cable, payload: seq<byte>)
    requires c.Idle()
    ensures Called(execute, c, payload)
         == if 1 + |payload| <= FRAME_LIMIT && 1 + |DeviceReply(execute, payload)| <= FRAME_LIMIT
            then Ok(DeviceReply(execute, payload)) else Err(Timeout)
  {
    DeviceReads(execute, c, payload);
    var sent := if 1 + |payload| <= FRAME_LIMIT
                then [Kiss.Frame(SPI_REPLY, DeviceReply(execute, payload))] else [];
    HostReads(c, sent);
    OneReply(DeviceReply(execute, payload));
  }

  // ---- what the device makes of a request ----

  /** Bytes of reply the operations want, transfers at their longer side. */
  function WantedAll(phases: seq<Phase>): nat {
    if phases == [] then 0
    else phases[0].Wanted() + Skipped(phases[0]) + WantedAll(phases[1..])
  }

  lemma {:induction false} WantedAgrees(phases: seq<Phase>)
    ensures WantedBy(SeenAll(phases)) <= WantedAll(phases)
    ensures WantedAll(phases) <= FRAME_LIMIT || WantedBy(SeenAll(phases)) <= FRAME_LIMIT ==>
      WantedBy(SeenAll(phases)) == WantedAll(phases)
  {
    if phases != [] {
      var rest := SeenAll(phases[1..]);
      WantedAgrees(phases[1..]);
      assert SeenAll(phases)[1..] == rest;
    }
  }

  /** A request whose bytes fit a frame is answered as its operations say. */
  lemma RequestAnswered(execute: (byte, seq<byte>) -> seq<byte>, phases: seq<Phase>)
    requires 1 + |Request(phases)| <= FRAME_LIMIT
    ensures DeviceReply(execute, Request(phases))
         == if WantedAll(phases) + 1 > FRAME_LIMIT then [STATUS_TOO_LONG]
            else [STATUS_OK] + Next(Answer(execute, Clocked(SeenAll(phases))), WantedAll(phases))
  {
    forall i | 0 <= i < |phases|
      ensures |OpOf(phases[i]).bytes| <= 0xFFFF
    {
      ItemsFitRequest(phases, i);
    }
    RequestParses(phases);
    WantedAgrees(phases);
  }

  // ---- transfers with unequal sides ----

  predicate EqualSided(phases: seq<Phase>) {
    forall i :: 0 <= i < |phases| && phases[i].Both? ==> phases[i].length == |phases[i].write|
  }

  /** No transfer reads more than it writes: that would clock out zeros that the
      direct bus does not. */
  predicate NoLongerRead(phases: seq<Phase>) {
    forall i :: 0 <= i < |phases| && phases[i].Both? ==> phases[i].length <= |phases[i].write|
  }

  /** Nothing is read after a transfer that writes more than it reads: the bridge
      drops the bytes such a transfer skips, the direct bus leaves them for the
      next buffer. */
  predicate SkipsLast(phases: seq<Phase>) {
    forall i, j :: 0 <= i < j < |phases| && Skipped(phases[i]) > 0 ==> phases[j].Wanted() == 0
  }

  predicate Harmless(phases: seq<Phase>) {
    NoLongerRead(phases) && SkipsLast(phases)
  }

  lemma EqualSidesAreHarmless(phases: seq<Phase>)
    requires EqualSided(phases)
    ensures Harmless(phases)
  {
  }

  lemma ClocksItsWriteSide(p: Phase)
    ensures Seen(p).bytes == p.Written() + Zeros(if p.Both? then Max(p.length - |p.write|, 0) else 0)
  {
    assert p.Written() + [] == p.Written();
  }

  /** The device clocks out the very command the direct bus would, or a longer
      one. */
  lemma {:induction false} SameCommandExactly(phases: seq<Phase>)
    ensures |Clocked(SeenAll(phases))| >= |Command(phases)|
    ensures Clocked(SeenAll(phases)) == Command(phases) <==> NoLongerRead(phases)
    ensures |Clocked(SeenAll(phases))| == |Command(phases)| <==> NoLongerRead(phases)
  {
    if phases != [] {
      var p, rest := phases[0], phases[1..];
      ClocksItsWriteSide(p);
      SameCommandExactly(rest);
      assert SeenAll(phases)[1..] == SeenAll(rest);
      assert p.Written() + Zeros(0) == p.Written();
      NoLongerReadCons(phases);
    }
  }

  lemma NoLongerReadCons(phases: seq<Phase>)
    requires phases != []
    ensures NoLongerRead(phases)
       <==> (phases[0].Both? ==> phases[0].length <= |phases[0].write|) && NoLongerRead(phases[1..])
  {
    assert forall i :: 0 <= i < |phases[1..]| ==> phases[1..][i] == phases[i + 1];
    assert forall i :: 1 <= i < |phases| ==> phases[i] == phases[1..][i - 1];
  }

  predicate WantsNothing(phases: seq<Phase>) {
    forall i :: 0 <= i < |phases| ==> phases[i].Wanted() == 0
  }

  lemma SkipsLastCons(phases: seq<Phase>)
    requires phases != []
    ensures SkipsLast(phases)
       <==> (Skipped(phases[0]) > 0 ==> WantsNothing(phases[1..])) && SkipsLast(phases[1..])
  {
    assert forall i :: 0 <= i < |phases[1..]| ==> phases[1..][i] == phases[i + 1];
    assert forall i :: 1 <= i < |phases| ==> phases[i] == phases[1..][i - 1];
  }

  /** Buffers that want nothing get nothing, whatever is left to deal. */
  lemma {:induction false} NothingDealt(phases: seq<Phase>, a: seq<byte>, b: seq<byte>)
    requires WantsNothing(phases)
    ensures Filled(phases, a) == Filled(phases, b)
    decreases |phases|
  {
    if phases != [] {
      assert Next(a, 0) == Next(b, 0);
      NothingDealt(phases[1..], Rest(a, 0), Rest(b, 0));
    }
  }

  /** One operation's share of the reply, and what is left to deal. */
  lemma DealtFirst(phases: seq<Phase>, answer: seq<byte>)
    requires phases != []
    ensures var n, wanted := phases[0].Wanted(), phases[0].Wanted() + Skipped(phases[0]);
            var later := CopiedBack(phases[1..], Next(Rest(answer, wanted), WantedAll(phases[1..])));
            CopiedBack(phases, Next(answer, WantedAll(phases)))
            == if later.Some? then Some([Next(answer, n)] + later.value) else None
  {
    var n, wanted := phases[0].Wanted(), phases[0].Wanted() + Skipped(phases[0]);
    var rest, all := phases[1..], Next(answer, WantedAll(phases));
    NextSplits(answer, wanted, WantedAll(rest));
    assert all[wanted..] == Next(Rest(answer, wanted), WantedAll(rest));
    assert all[..n] == Next(answer, n);
  }

  /** The reply deals out to the very buffers, if nothing is read after a skip. */
  lemma {:induction false} SameBuffers(phases: seq<Phase>, answer: seq<byte>)
    requires SkipsLast(phases)
    ensures CopiedBack(phases, Next(answer, WantedAll(phases))) == Some(Filled(phases, answer))
    decreases |phases|
  {
    if phases != [] {
      var n, rest := phases[0].Wanted(), phases[1..];
      var wanted := n + Skipped(phases[0]);
      SkipsLastCons(phases);
      DealtFirst(phases, answer);
      SameBuffers(rest, Rest(answer, wanted));
      if wanted > n {
        NothingDealt(rest, Rest(answer, wanted), Rest(answer, n));
      }
    }
  }

  // ---- answers that tell the two apart ----

  /** Every byte of every buffer is this one. */
  predicate AllAre(buffers: seq<seq<byte>>, x: byte) {
    forall k, j :: 0 <= k < |buffers| && 0 <= j < |buffers[k]| ==> buffers[k][j] == x
  }

  function Ones(n: nat): seq<byte> {
    seq(n, _ => 1)
  }

  lemma AllAreCons(first: seq<byte>, rest: seq<seq<byte>>, x: byte)
    requires AllAre(rest, x) && forall j :: 0 <= j < |first| ==> first[j] == x
    ensures AllAre([first] + rest, x)
  {
    var all := [first] + rest;
    forall k, j | 0 <= k < |all| && 0 <= j < |all[k]|
      ensures all[k][j] == x
    {
      if k > 0 {
        assert all[k] == rest[k - 1];
      }
    }
  }

  /** An answer that repeats one byte fills every buffer with it. */
  lemma {:induction false} CopiedAlike(phases: seq<Phase>, bytes: seq<byte>, x: byte)
    requires |bytes| == WantedAll(phases) && forall i :: 0 <= i < |bytes| ==> bytes[i] == x
    ensures CopiedBack(phases, bytes).Some? && AllAre(CopiedBack(phases, bytes).value, x)
    decreases |phases|
  {
    if phases != [] {
      var n, rest := phases[0].Wanted(), phases[1..];
      var wanted := n + Skipped(phases[0]);
      CopiedAlike(rest, bytes[wanted..], x);
      AllAreCons(bytes[..n], CopiedBack(rest, bytes[wanted..]).value, x);
    }
  }

  /** Without an answer the direct bus leaves zeros, whatever is left of one that
      starts with a one puts a one somewhere, if anything is read at all. */
  lemma {:induction false} FilledTells(phases: seq<Phase>, answer: seq<byte>)
    requires !WantsNothing(phases) && answer != [] && answer[0] != 0
    ensures !AllAre(Filled(phases, answer), 0)
    decreases |phases|
  {
    var n, rest := phases[0].Wanted(), phases[1..];
    var filled := Filled(phases, answer);
    if n > 0 {
      assert filled[0][0] == answer[0];
    } else {
      assert forall i :: 0 <= i < |rest| ==> rest[i] == phases[i + 1];
      assert Rest(answer, 0) == answer;
      FilledTells(rest, answer);
      var k, j :| 0 <= k < |Filled(rest, answer)| && 0 <= j < |Filled(rest, answer)[k]|
        && Filled(rest, answer)[k][j] != 0;
      assert filled[k + 1] == Filled(rest, answer)[k];
    }
  }

  lemma {:induction false} NoAnswerIsZeros(phases: seq<Phase>)
    ensures AllAre(Filled(phases, []), 0)
  {
    if phases != [] {
      NoAnswerIsZeros(phases[1..]);
      AllAreCons(Next([], phases[0].Wanted()), Filled(phases[1..], []), 0);
      assert Rest([], phases[0].Wanted()) == [];
    }
  }

  /** A read after a skip: some answer is dealt out differently. */
  lemma {:induction false} SkippedTells(phases: seq<Phase>) returns (answer: seq<byte>)
    requires !SkipsLast(phases)
    ensures CopiedBack(phases, Next(answer, WantedAll(phases))) != Some(Filled(phases, answer))
    decreases |phases|
  {
    var n, rest := phases[0].Wanted(), phases[1..];
    var wanted := n + Skipped(phases[0]);
    SkipsLastCons(phases);
    if wanted > n && !WantsNothing(rest) {
      answer := Zeros(n) + [1];
      assert Rest(answer, n) == [1] && Rest(answer, wanted) == [];
      FilledTells(rest, [1]);
      CopiedAlike(rest, Next([], WantedAll(rest)), 0);
    } else {
      var later := SkippedTells(rest);
      answer := Zeros(wanted) + later;
      assert Rest(answer, wanted) == later;
    }
    DealtFirst(phases, answer);
    OtherTail(phases, answer);
  }

  /** Buffers that differ after the first one differ. */
  lemma OtherTail(phases: seq<Phase>, answer: seq<byte>)
    requires phases != []
    ensures Filled(phases, answer)[1..] == Filled(phases[1..], Rest(answer, phases[0].Wanted()))
  {
  }

  // ---- transparency ----

  /** The request and its reply each fit a frame. */
  predicate Fits(phases: seq<Phase>) {
    1 + |Request(phases)| <= FRAME_LIMIT && 2 + WantedAll(phases) <= FRAME_LIMIT
  }

  /** The reply's bytes for these operations. */
  function Replied(execute: (byte, seq<byte>) -> seq<byte>, phases: seq<Phase>): seq<byte> {
    Next(Answer(execute, Clocked(SeenAll(phases))), WantedAll(phases))
  }

  /** What a transaction comes to over an idle cable, with any DIO1 notices in
      between, whatever its transfers' sides: its request and its reply have to
      fit a frame, and the reply is then dealt out. */
  lemma OverTheCable(execute: (byte, seq<byte>) -> seq<byte>, c: Cable, phases: seq<Phase>)
    requires c.Idle()
    ensures Transacted(payload => Called(execute, c, payload), phases)
         == if Fits(phases) then
              (match CopiedBack(phases, Replied(execute, phases))
               case None => Err(Protocol)
               case Some(buffers) => Ok(buffers))
            else if 1 + |Request(phases)| > FRAME_LIMIT then Err(Timeout)
            else if 1 + WantedAll(phases) > FRAME_LIMIT then Err(Status(STATUS_TOO_LONG))
            else Err(Timeout)
  {
    var payload := Request(phases);
    CableCarries(execute, c, payload);
    if 1 + |payload| <= FRAME_LIMIT {
      RequestAnswered(execute, phases);
      var bytes := Replied(execute, phases);
      assert ([STATUS_OK] + bytes)[1..] == bytes;
    }
  }

  /** Whatever the chip does with a command: over an idle cable, with any DIO1
      notices in between, a transaction whose transfers never read longer than
      they write, and read nothing after one that writes longer, leaves every
      buffer as the direct bus would, exactly when its request and its reply fit
      a frame; and what happens when one does not. */
  lemma BridgeIsTransparent(execute: (byte, seq<byte>) -> seq<byte>, c: Cable, phases: seq<Phase>)
    requires c.Idle() && Harmless(phases)
    ensures Transacted(payload => Called(execute, c, payload), phases)
         == if Fits(phases) then Ok(Direct(execute, phases))
            else if 1 + |Request(phases)| > FRAME_LIMIT then Err(Timeout)
            else if 1 + WantedAll(phases) > FRAME_LIMIT then Err(Status(STATUS_TOO_LONG))
            else Err(Timeout)
  {
    OverTheCable(execute, c, phases);
    SameCommandExactly(phases);
    SameBuffers(phases, Answer(execute, Command(phases)));
  }

  /** With this chip on this cable the buffers are the direct bus's. */
  predicate SameOverBridge(execute: (byte, seq<byte>) -> seq<byte>, c: Cable, phases: seq<Phase>) {
    Transacted(payload => Called(execute, c, payload), phases) == Ok(Direct(execute, phases))
  }

  /** A chip that answers one command only. */
  function AnswersOnly(command: seq<byte>, answer: seq<byte>): (byte, seq<byte>) -> seq<byte> {
    (opcode, args) => if [opcode] + args == command then answer else []
  }

  lemma AnswersThat(command: seq<byte>, answer: seq<byte>, other: seq<byte>)
    requires other != [] || answer == []
    ensures Answer(AnswersOnly(command, answer), other) == if other == command then answer else []
  {
    if other != [] {
      assert [other[0]] + other[1..] == other;
    }
  }

  lemma LongReadIsRead(phases: seq<Phase>)
    requires !NoLongerRead(phases)
    ensures !WantsNothing(phases)
  {
    var i :| 0 <= i < |phases| && phases[i].Both? && phases[i].length > |phases[i].write|;
    assert phases[i].Wanted() > 0;
  }

  lemma {:induction false} ReadIsFilled(phases: seq<Phase>, bytes: seq<byte>)
    requires !WantsNothing(phases) && CopiedBack(phases, bytes).Some?
    requires AllAre(CopiedBack(phases, bytes).value, 1)
    ensures !AllAre(CopiedBack(phases, bytes).value, 0)
    decreases |phases|
  {
    var n, rest := phases[0].Wanted(), phases[1..];
    var later := bytes[n + Skipped(phases[0])..];
    var buffers := CopiedBack(phases, bytes).value;
    if n > 0 {
      assert buffers[0][0] == 1;
    } else {
      assert forall i :: 0 <= i < |rest| ==> rest[i] == phases[i + 1];
      var others := CopiedBack(rest, later).value;
      assert forall k :: 0 <= k < |others| ==> others[k] == buffers[k + 1];
      ReadIsFilled(rest, later);
      var k, j :| 0 <= k < |others| && 0 <= j < |others[k]| && others[k][j] != 0;
      assert buffers[k + 1][j] != 0;
    }
  }

  /** A chip that answers the zero-padded command and no other tells the two
      apart. */
  lemma LongerReadTells(phases: seq<Phase>) returns (execute: (byte, seq<byte>) -> seq<byte>)
    requires !NoLongerRead(phases)
    ensures CopiedBack(phases, Replied(execute, phases)) != Some(Direct(execute, phases))
  {
    var padded := Clocked(SeenAll(phases));
    var ones := Ones(WantedAll(phases));
    execute := AnswersOnly(padded, ones);
    SameCommandExactly(phases);
    AnswersThat(padded, ones, padded);
    if Command(phases) != [] {
      AnswersThat(padded, ones, Command(phases));
    }
    NoAnswerIsZeros(phases);
    LongReadIsRead(phases);
    assert Next(ones, WantedAll(phases)) == ones;
    CopiedAlike(phases, ones, 1);
    ReadIsFilled(phases, ones);
  }

  lemma {:induction false} SkipIsWritten(phases: seq<Phase>, i: nat)
    requires i < |phases| && Skipped(phases[i]) > 0
    ensures Command(phases) != []
  {
    if i > 0 {
      assert phases[1..][i - 1] == phases[i];
      SkipIsWritten(phases[1..], i - 1);
    }
  }

  /** A chip whose answer is wanted past a skip tells the two apart. */
  lemma ReadAfterSkipTells(phases: seq<Phase>) returns (execute: (byte, seq<byte>) -> seq<byte>)
    requires NoLongerRead(phases) && !SkipsLast(phases)
    ensures CopiedBack(phases, Replied(execute, phases)) != Some(Direct(execute, phases))
  {
    var answer := SkippedTells(phases);
    var i, j :| 0 <= i < j < |phases| && Skipped(phases[i]) > 0 && phases[j].Wanted() != 0;
    SkipIsWritten(phases, i);
    SameCommandExactly(phases);
    execute := AnswersOnly(Command(phases), answer);
    AnswersThat(Command(phases), answer, Command(phases));
  }

  const IDLE: Cable := Cable(Kiss.FRESH, Kiss.FRESH, [])

  /** The bridge cannot be told from the direct bus, by any chip on any idle
      cable, exactly when the request and the reply fit a frame, no transfer reads
      longer than it writes, and nothing is read after one that writes longer. */
  lemma TransparentExactly(phases: seq<Phase>)
    ensures (forall execute, c: Cable :: c.Idle() ==> SameOverBridge(execute, c, phases))
       <==> Fits(phases) && Harmless(phases)
  {
    if Fits(phases) && Harmless(phases) {
      forall execute, c: Cable | c.Idle()
        ensures SameOverBridge(execute, c, phases)
      {
        BridgeIsTransparent(execute, c, phases);
      }
    } else {
      var execute := AnswersOnly([], []);
      if Fits(phases) {
        if !NoLongerRead(phases) {
          execute := LongerReadTells(phases);
        } else {
          execute := ReadAfterSkipTells(phases);
        }
      }
      OverTheCable(execute, IDLE, phases);
      assert IDLE.Idle() && !SameOverBridge(execute, IDLE, phases);
    }
  }

  /** With equal sides, then, fitting a frame is all there is to it. */
  lemma EqualSidesTransparentExactly(phases: seq<Phase>)
    requires EqualSided(phases)
    ensures (forall execute, c: Cable :: c.Idle() ==> SameOverBridge(execute, c, phases)) <==> Fits(phases)
  {
    EqualSidesAreHarmless(phases);
    TransparentExactly(phases);
  }

  /** The device's own guard stops one byte short of the frame limit: a reply it
      accepts as just fitting never reaches the host. */
  lemma GuardIsOffByOne(execute: (byte, seq<byte>) -> seq<byte>, c: Cable)
    requires c.Idle()
    ensures var phases := [In(FRAME_LIMIT - 1)];
            DeviceReply(execute, Request(phases))[0] == STATUS_OK
            && Transacted(payload => Called(execute, c, payload), phases) == Err(Timeout)
  {
    var phases := [In(FRAME_LIMIT - 1)];
    assert phases[1..] == [];
    assert Request(phases) == Item(OpOf(phases[0])) + Request([]);
    assert WantedAll(phases) == FRAME_LIMIT - 1;
    RequestAnswered(execute, phases);
    OverTheCable(execute, c, phases);
  }
}
