/** KISS framing: byte stuffing, and the deframer that undoes it however the
    stream is chopped up. */
module Kiss {
  import opened Basics

  const FEND: byte := 0xC0
  const FESC: byte := 0xDB
  const TFEND: byte := 0xDC
  const TFESC: byte := 0xDD

  function Escaped(b: byte): seq<byte> {
    if b == FEND then [FESC, TFEND] else if b == FESC then [FESC, TFESC] else [b]
  }

  function EscapedAll(payload: seq<byte>): seq<byte> {
    if payload == [] then [] else Escaped(payload[0]) + EscapedAll(payload[1..])
  }

  /** One frame on the wire; the command byte travels as it is. */
  function Framed(command: byte, payload: seq<byte>): seq<byte> {
    [FEND, command] + EscapedAll(payload) + [FEND]
  }

  lemma {:induction false} EscapedAllSnoc(payload: seq<byte>, b: byte)
    ensures EscapedAll(payload + [b]) == EscapedAll(payload) + Escaped(b)
  {
    if payload == [] {
      assert EscapedAll([b]) == Escaped(b) + EscapedAll([]);
    } else {
      assert (payload + [b])[1..] == payload[1..] + [b];
      EscapedAllSnoc(payload[1..], b);
    }
  }

  method Encode(command: byte, payload: seq<byte>) returns (out: seq<byte>)
    ensures out == Framed(command, payload)
  {
    out := [FEND, command];
    for i := 0 to |payload|
      invariant out == [FEND, command] + EscapedAll(payload[..i])
    {
      var b := payload[i];
      EscapedAllSnoc(payload[..i], b);
      assert payload[..i + 1] == payload[..i] + [b];
      if b == FEND {
        out := out + [FESC, TFEND];
      } else if b == FESC {
        out := out + [FESC, TFESC];
      } else {
        out := out + [b];
      }
    }
    assert payload[..|payload|] == payload;
    out := out + [FEND];
  }

  // ---- deframing ----

  datatype Stream = Stream(frame: seq<byte>, inFrame: bool, escaped: bool)

  /** Inside a frame, nothing read yet. */
  const FRESH: Stream := Stream([], true, false)

  function Unescaped(b: byte): byte {
    if b == TFEND then FEND else if b == TFESC then FESC else b
  }

  function Kept(d: Stream, limit: nat, b: byte): Stream {
    if |d.frame| >= limit then Stream([], false, false)
    else Stream(d.frame + [b], true, false)
  }

  /** One byte in, and the frame it completes, if any. */
  function Fed(d: Stream, limit: nat, b: byte): (Stream, seq<seq<byte>>) {
    if b == FEND then (FRESH, Leftover(d))
    else if !d.inFrame then (d, [])
    else if d.escaped then (Kept(d, limit, Unescaped(b)), [])
    else if b == FESC then (d.(escaped := true), [])
    else (Kept(d, limit, b), [])
  }

  /** The frame a delimiter would complete now. */
  function Leftover(d: Stream): seq<seq<byte>> {
    if d.inFrame && d.frame != [] then [d.frame] else []
  }

  function FedAll(d: Stream, limit: nat, bytes: seq<byte>): (Stream, seq<seq<byte>>)
    decreases |bytes|
  {
    if bytes == [] then (d, [])
    else
      var (next, now) := Fed(d, limit, bytes[0]);
      var (last, later) := FedAll(next, limit, bytes[1..]);
      (last, now + later)
  }

  /** Fed these bytes, the deframer goes from `d` to `last` and gives `out`. */
  ghost predicate Runs(d: Stream, limit: nat, bytes: seq<byte>, last: Stream, out: seq<seq<byte>>) {
    FedAll(d, limit, bytes) == (last, out)
  }

  lemma RunsByte(d: Stream, limit: nat, b: byte)
    ensures Runs(d, limit, [b], Fed(d, limit, b).0, Fed(d, limit, b).1)
  {
    var (next, now) := Fed(d, limit, b);
    assert [b][1..] == [];
    assert FedAll(next, limit, []) == (next, []);
    assert now + [] == now;
  }

  lemma RunsCons(d: Stream, limit: nat, bytes: seq<byte>, last: Stream, later: seq<seq<byte>>)
    requires bytes != [] && Runs(Fed(d, limit, bytes[0]).0, limit, bytes[1..], last, later)
    ensures Runs(d, limit, bytes, last, Fed(d, limit, bytes[0]).1 + later)
  {
    assert FedAll(Fed(d, limit, bytes[0]).0, limit, bytes[1..]) == (last, later);
  }

  /** However the stream is chopped up, the same frames come out. */
  lemma {:induction false} RunsThen(
    d: Stream, limit: nat, a: seq<byte>, mid: Stream, x: seq<seq<byte>>, b: seq<byte>, last: Stream,
    y: seq<seq<byte>>)
    requires Runs(d, limit, a, mid, x) && Runs(mid, limit, b, last, y)
    ensures Runs(d, limit, a + b, last, x + y)
    decreases |a|
  {
    assert FedAll(d, limit, a) == (mid, x);
    if a == [] {
      assert a + b == b && x + y == y;
    } else {
      var (next, now) := Fed(d, limit, a[0]);
      var later := FedAll(next, limit, a[1..]).1;
      RunsThen(next, limit, a[1..], mid, later, b, last, y);
      assert (a + b)[0] == a[0] && (a + b)[1..] == a[1..] + b;
      RunsCons(d, limit, a + b, last, later + y);
      Associative(now, later, y);
    }
  }

  lemma ChunksDoNotMatter(d: Stream, limit: nat, a: seq<byte>, b: seq<byte>)
    ensures var (mid, first) := FedAll(d, limit, a);
            var (last, second) := FedAll(mid, limit, b);
            FedAll(d, limit, a + b) == (last, first + second)
  {
    var (mid, first) := FedAll(d, limit, a);
    var (last, second) := FedAll(mid, limit, b);
    RunsThen(d, limit, a, mid, first, b, last, second);
    assert FedAll(d, limit, a + b) == (last, first + second);
  }

  class Deframer {
    var frame: seq<byte>
    var inFrame: bool
    var escaped: bool
    const limit: nat

    function Model(): Stream
      reads this
    {
      Stream(frame, inFrame, escaped)
    }

    constructor (limit: nat)
      ensures this.limit == limit && Model() == Stream([], false, false)
    {
      this.limit := limit;
      frame, inFrame, escaped := [], false, false;
    }

    /** The frames these bytes complete, in order. */
    method Push(bytes: seq<byte>) returns (out: seq<seq<byte>>)
      modifies this
      ensures (Model(), out) == FedAll(old(Model()), limit, bytes)
    {
      out := [];
      for i := 0 to |bytes|
        invariant (Model(), out) == FedAll(old(Model()), limit, bytes[..i])
      {
        ghost var before, sofar := Model(), out;
        var b := bytes[i];
        if b == FEND {
          if inFrame && frame != [] {
            out := out + [frame];
          }
          frame, inFrame, escaped := [], true, false;
        } else if inFrame && !escaped && b == FESC {
          escaped := true;
        } else if inFrame {
          var decoded := if escaped then Unescaped(b) else b;
          escaped := false;
          if |frame| >= limit {
            frame, inFrame := [], false;
          } else {
            frame := frame + [decoded];
          }
        }
        assert sofar + [] == sofar;
        assert (Model(), out) == (Fed(before, limit, b).0, sofar + Fed(before, limit, b).1);
        FedSnoc(old(Model()), limit, bytes, i);
      }
      assert bytes[..|bytes|] == bytes;
    }
  }

  lemma FedSnoc(d: Stream, limit: nat, bytes: seq<byte>, i: nat)
    requires i < |bytes|
    ensures var (mid, first) := FedAll(d, limit, bytes[..i]);
            var (last, second) := Fed(mid, limit, bytes[i]);
            FedAll(d, limit, bytes[..i + 1]) == (last, first + second)
  {
    ChunksDoNotMatter(d, limit, bytes[..i], [bytes[i]]);
    assert bytes[..i] + [bytes[i]] == bytes[..i + 1];
    var mid := FedAll(d, limit, bytes[..i]).0;
    RunsByte(mid, limit, bytes[i]);
    assert FedAll(mid, limit, [bytes[i]]) == Fed(mid, limit, bytes[i]);
  }

  // ---- frames in, frames out ----

  /** What the deframer holds after some payload bytes of one frame. */
  function Gathered(frame: seq<byte>, limit: nat): Stream {
    if |frame| <= limit then Stream(frame, true, false) else Stream([], false, false)
  }

  /** Two runs of bytes that complete no frame, one after the other. */
  lemma Silently(d: Stream, limit: nat, a: seq<byte>, mid: Stream, b: seq<byte>, last: Stream)
    requires Runs(d, limit, a, mid, []) && Runs(mid, limit, b, last, [])
    ensures Runs(d, limit, a + b, last, [])
  {
    var none: seq<seq<byte>> := [];
    RunsThen(d, limit, a, mid, none, b, last, none);
    assert none + none == none;
  }

  lemma EscapedByte(frame: seq<byte>, limit: nat, b: byte)
    ensures Runs(Gathered(frame, limit), limit, Escaped(b), Gathered(frame + [b], limit), [])
  {
    var d := Gathered(frame, limit);
    if b == FEND || b == FESC {
      var second := if b == FEND then TFEND else TFESC;
      var mid := Fed(d, limit, FESC).0;
      RunsByte(d, limit, FESC);
      RunsByte(mid, limit, second);
      Silently(d, limit, [FESC], mid, [second], Gathered(frame + [b], limit));
      assert Escaped(b) == [FESC] + [second];
    } else {
      RunsByte(d, limit, b);
      assert Escaped(b) == [b] && Fed(d, limit, b) == (Gathered(frame + [b], limit), []);
    }
  }

  lemma {:induction false} PayloadGathers(frame: seq<byte>, limit: nat, payload: seq<byte>)
    ensures Runs(Gathered(frame, limit), limit, EscapedAll(payload), Gathered(frame + payload, limit), [])
    decreases |payload|
  {
    if payload == [] {
      assert frame + payload == frame;
      assert FedAll(Gathered(frame, limit), limit, []) == (Gathered(frame, limit), []);
    } else {
      var b, rest := payload[0], payload[1..];
      EscapedByte(frame, limit, b);
      PayloadGathers(frame + [b], limit, rest);
      Silently(Gathered(frame, limit), limit, Escaped(b), Gathered(frame + [b], limit),
               EscapedAll(rest), Gathered(frame + [b] + rest, limit));
      assert frame + [b] + rest == frame + payload;
    }
  }

  /** What is left over from before, then the frame if it fits. */
  function Delivered(d: Stream, limit: nat, command: byte, payload: seq<byte>): seq<seq<byte>> {
    Leftover(d) + if 1 + |payload| <= limit then [[command] + payload] else []
  }

  /** One encoded frame, fed in any state: at most one leftover, then exactly
      the frame if it is within the limit and nothing if it is over. */
  lemma FrameComesOut(d: Stream, limit: nat, command: byte, payload: seq<byte>)
    requires command != FEND && command != FESC
    ensures FedAll(d, limit, Framed(command, payload))
         == (FRESH, Delivered(d, limit, command, payload))
  {
    var body := EscapedAll(payload);
    var one := Gathered([command], limit);
    var all := Gathered([command] + payload, limit);
    assert Framed(command, payload) == [FEND] + ([command] + (body + [FEND]));
    PayloadGathers([command], limit, payload);
    RunsByte(all, limit, FEND);
    RunsThen(one, limit, body, all, [], [FEND], FRESH, Leftover(all));
    assert [] + Leftover(all) == Leftover(all);
    RunsByte(FRESH, limit, command);
    assert [] + [command] == [command];
    RunsThen(FRESH, limit, [command], one, [], body + [FEND], FRESH, Leftover(all));
    RunsByte(d, limit, FEND);
    RunsThen(d, limit, [FEND], FRESH, Leftover(d), [command] + (body + [FEND]), FRESH, Leftover(all));
    assert FedAll(d, limit, Framed(command, payload)) == (FRESH, Leftover(d) + Leftover(all));
  }

  datatype Frame = Frame(command: byte, payload: seq<byte>)

  function FramedAll(frames: seq<Frame>): seq<byte> {
    if frames == [] then []
    else Framed(frames[0].command, frames[0].payload) + FramedAll(frames[1..])
  }

  /** The frames within the limit, in order. */
  function Within(frames: seq<Frame>, limit: nat): seq<seq<byte>> {
    if frames == [] then []
    else
      (if 1 + |frames[0].payload| <= limit then [[frames[0].command] + frames[0].payload] else [])
      + Within(frames[1..], limit)
  }

  predicate Plain(frames: seq<Frame>) {
    forall i :: 0 <= i < |frames| ==> frames[i].command != FEND && frames[i].command != FESC
  }

  lemma JoinDelivered(d: Stream, limit: nat, frames: seq<Frame>)
    requires frames != []
    ensures Delivered(d, limit, frames[0].command, frames[0].payload) + Within(frames[1..], limit)
         == Leftover(d) + Within(frames, limit)
  {
    Associative(Leftover(d), Within([frames[0]], limit), Within(frames[1..], limit));
    OneWithin(frames[0], limit);
  }

  lemma OneWithin(f: Frame, limit: nat)
    ensures Within([f], limit) == if 1 + |f.payload| <= limit then [[f.command] + f.payload] else []
  {
    assert [f][1..] == [];
    assert Within([f], limit)
        == (if 1 + |f.payload| <= limit then [[f.command] + f.payload] else []) + Within([], limit);
  }

  lemma FromFresh(limit: nat, out: seq<seq<byte>>)
    ensures Leftover(FRESH) + out == out
  {
  }

  /** A stream of encoded frames, whatever came before it: after at most one
      leftover, every frame within the limit comes out whole and in order, and a
      frame over the limit takes nothing else with it. */
  lemma {:induction false} StreamComesOut(d: Stream, limit: nat, frames: seq<Frame>)
    requires Plain(frames) && frames != []
    ensures FedAll(d, limit, FramedAll(frames)) == (FRESH, Leftover(d) + Within(frames, limit))
    decreases |frames|, 0
  {
    var f, rest := frames[0], frames[1..];
    FrameComesOut(d, limit, f.command, f.payload);
    ChunksDoNotMatter(d, limit, Framed(f.command, f.payload), FramedAll(rest));
    JoinDelivered(d, limit, frames);
    RestComesOut(limit, rest);
  }

  lemma {:induction false} RestComesOut(limit: nat, rest: seq<Frame>)
    requires Plain(rest)
    ensures FedAll(FRESH, limit, FramedAll(rest)) == (FRESH, Within(rest, limit))
    decreases |rest|, 1
  {
    if rest != [] {
      StreamComesOut(FRESH, limit, rest);
      FromFresh(limit, Within(rest, limit));
    }
  }

  // ---- any stream ----

  /** What a byte after an escape stands for; only two have a meaning of their own. */
  function Meaning(b: byte): byte {
    match b
    case 0xDC => 0xC0
    case 0xDD => 0xDB
    case _ => b
  }

  /** What the bytes between two delimiters say; an escape with nothing after it says
      nothing. */
  function Meant(segment: seq<byte>): seq<byte>
    decreases |segment|
  {
    if segment == [] || segment == [0xDB] then []
    else if segment[0] == 0xDB then [Meaning(segment[1])] + Meant(segment[2..])
    else [segment[0]] + Meant(segment[1..])
  }

  ghost predicate Ends(d: Stream, frame: seq<byte>, limit: nat) {
    d == Gathered(frame, limit) || (|frame| <= limit && d == Stream(frame, true, true))
  }

  lemma PlainByte(frame: seq<byte>, limit: nat, b: byte)
    requires b != 0xC0 && b != 0xDB
    ensures Runs(Gathered(frame, limit), limit, [b], Gathered(frame + [b], limit), [])
  {
    RunsByte(Gathered(frame, limit), limit, b);
  }

  lemma EscapeAndByte(frame: seq<byte>, limit: nat, b: byte)
    requires b != 0xC0
    ensures Runs(Gathered(frame, limit), limit, [0xDB] + [b], Gathered(frame + [Meaning(b)], limit), [])
  {
    var d := Gathered(frame, limit);
    var mid := Fed(d, limit, FESC).0;
    RunsByte(d, limit, FESC);
    RunsByte(mid, limit, b);
    Silently(d, limit, [FESC], mid, [b], Gathered(frame + [Meaning(b)], limit));
  }

  lemma LoneEscape(frame: seq<byte>, limit: nat) returns (last: Stream)
    ensures Runs(Gathered(frame, limit), limit, [0xDB], last, []) && Ends(last, frame, limit)
  {
    last := Fed(Gathered(frame, limit), limit, FESC).0;
    RunsByte(Gathered(frame, limit), limit, FESC);
  }

  lemma {:induction false} SegmentGathers(frame: seq<byte>, limit: nat, segment: seq<byte>) returns (last: Stream)
    requires forall i :: 0 <= i < |segment| ==> segment[i] != 0xC0
    ensures Runs(Gathered(frame, limit), limit, segment, last, [])
    ensures Ends(last, frame + Meant(segment), limit)
    decreases |segment|
  {
    if segment == [] {
      last := Gathered(frame, limit);
      assert frame + [] == frame;
      assert FedAll(last, limit, []) == (last, []);
    } else if segment == [0xDB] {
      last := LoneEscape(frame, limit);
      assert frame + [] == frame;
    } else {
      var n := if segment[0] == 0xDB then 2 else 1;
      var b := if segment[0] == 0xDB then Meaning(segment[1]) else segment[0];
      if n == 2 {
        EscapeAndByte(frame, limit, segment[1]);
        assert [0xDB] + [segment[1]] == segment[..2];
      } else {
        PlainByte(frame, limit, b);
        assert [b] == segment[..1];
      }
      last := SegmentGathers(frame + [b], limit, segment[n..]);
      Silently(Gathered(frame, limit), limit, segment[..n], Gathered(frame + [b], limit), segment[n..], last);
      assert segment[..n] + segment[n..] == segment;
      assert frame + [b] + Meant(segment[n..]) == frame + Meant(segment);
    }
  }

  /** Of whatever stands between two delimiters, noise or a frame, what it says comes
      out, if it says anything and no more than the limit. */
  lemma SegmentComesOut(limit: nat, segment: seq<byte>)
    requires forall i :: 0 <= i < |segment| ==> segment[i] != 0xC0
    ensures FedAll(FRESH, limit, segment + [0xC0])
         == (FRESH, if 1 <= |Meant(segment)| <= limit then [Meant(segment)] else [])
  {
    var last := SegmentGathers([], limit, segment);
    assert [] + Meant(segment) == Meant(segment);
    RunsByte(last, limit, FEND);
    RunsThen(FRESH, limit, segment, last, [], [FEND], FRESH, Leftover(last));
    assert [] + Leftover(last) == Leftover(last);
    assert FedAll(FRESH, limit, segment + [FEND]) == (FRESH, Leftover(last));
  }

  lemma MeantFirst(b: byte, rest: seq<byte>)
    ensures Meant(Escaped(b) + rest) == [b] + Meant(rest)
  {
    var all := Escaped(b) + rest;
    assert all[|Escaped(b)|..] == rest && all[0] == Escaped(b)[0];
    if |Escaped(b)| == 2 {
      assert all[1] == Escaped(b)[1];
      assert all != [0xDB];
    }
  }

  lemma {:induction false} NoDelimiterInside(payload: seq<byte>, i: nat)
    requires i < |EscapedAll(payload)|
    ensures EscapedAll(payload)[i] != 0xC0
  {
    var first := Escaped(payload[0]);
    if i >= |first| {
      NoDelimiterInside(payload[1..], i - |first|);
    }
  }

  /** A frame on the wire begins and ends with the one byte that appears nowhere else
      in it, and what stands between says the payload. */
  lemma {:induction false} StuffedSaysThePayload(payload: seq<byte>)
    ensures Meant(EscapedAll(payload)) == payload
    ensures forall i :: 0 <= i < |EscapedAll(payload)| ==> EscapedAll(payload)[i] != 0xC0
    ensures forall command :: Framed(command, payload) == [0xC0, command] + EscapedAll(payload) + [0xC0]
  {
    if payload != [] {
      MeantFirst(payload[0], EscapedAll(payload[1..]));
      StuffedSaysThePayload(payload[1..]);
      assert payload == [payload[0]] + payload[1..];
    }
    forall i | 0 <= i < |EscapedAll(payload)|
      ensures EscapedAll(payload)[i] != 0xC0
    {
      NoDelimiterInside(payload, i);
    }
  }
}
