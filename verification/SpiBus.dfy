/** One SPI transaction on the direct bus: every write is command bytes, every
    read is filled from the reply, in order. */
module SpiBus {
  import opened Basics

  /** What the driver hands over. Buffers are filled in place. */
  datatype Operation =
    | Write(bytes: seq<byte>)
    | Read(buffer: array<byte>)
    | Transfer(buffer: array<byte>, write: seq<byte>)
    | TransferInPlace(buffer: array<byte>)
    | DelayNs(ns: u32)
  {
    predicate HasBuffer() {
      Read? || Transfer? || TransferInPlace?
    }
  }

  /** The same operation as a value: what it clocks out, and how much it wants
      back. */
  datatype Phase =
    | Out(bytes: seq<byte>)
    | In(length: nat)
    | Both(length: nat, write: seq<byte>)
    | Swap(held: seq<byte>)
    | Pause(ns: u32)
  {
    function Written(): seq<byte> {
      match this
      case Out(bytes) => bytes
      case Both(_, write) => write
      case Swap(held) => held
      case _ => []
    }

    /** How long its buffer is; nothing, if it has none. */
    function Wanted(): nat {
      match this
      case In(length) => length
      case Both(length, _) => length
      case Swap(held) => |held|
      case _ => 0
    }
  }

  function PhaseOf(op: Operation): (p: Phase)
    reads if op.HasBuffer() then {op.buffer} else {}
    ensures p.Wanted() == if op.HasBuffer() then op.buffer.Length else 0
  {
    match op
    case Write(bytes) => Out(bytes)
    case Read(buffer) => In(buffer.Length)
    case Transfer(buffer, write) => Both(buffer.Length, write)
    case TransferInPlace(buffer) => Swap(buffer[..])
    case DelayNs(ns) => Pause(ns)
  }

  ghost function Buffers(ops: seq<Operation>): set<array<byte>> {
    set i | 0 <= i < |ops| && ops[i].HasBuffer() :: ops[i].buffer
  }

  function PhasesOf(ops: seq<Operation>): (ps: seq<Phase>)
    reads Buffers(ops)
    ensures |ps| == |ops| && forall i :: 0 <= i < |ops| ==> ps[i] == PhaseOf(ops[i])
  {
    if ops == [] then []
    else
      var last := |ops| - 1;
      assert forall i :: 0 <= i < last ==> ops[..last][i] == ops[i];
      assert Buffers(ops[..last]) <= Buffers(ops);
      PhasesOf(ops[..last]) + [PhaseOf(ops[last])]
  }

  /** Each operation's buffer is its own. */
  predicate Separate(ops: seq<Operation>) {
    forall i, j :: 0 <= i < j < |ops| && ops[i].HasBuffer() && ops[j].HasBuffer() ==>
      ops[i].buffer != ops[j].buffer
  }

  // ---- what a transaction means ----

  function Command(phases: seq<Phase>): seq<byte> {
    if phases == [] then [] else phases[0].Written() + Command(phases[1..])
  }

  /** The next `n` bytes of an answer, with zeros once it has run out. */
  function Next(answer: seq<byte>, n: nat): (r: seq<byte>)
    ensures |r| == n
  {
    seq(n, i => if 0 <= i < |answer| then answer[i] else 0)
  }

  function Rest(answer: seq<byte>, n: nat): seq<byte> {
    if n <= |answer| then answer[n..] else []
  }

  /** What every buffer holds afterwards. */
  function Filled(phases: seq<Phase>, answer: seq<byte>): (r: seq<seq<byte>>)
    ensures |r| == |phases|
  {
    if phases == [] then []
    else
      var n := phases[0].Wanted();
      [Next(answer, n)] + Filled(phases[1..], Rest(answer, n))
  }

  /** What the chip clocks out for a command; nothing for no command. */
  function Answer(execute: (byte, seq<byte>) -> seq<byte>, command: seq<byte>): seq<byte> {
    if command == [] then [] else execute(command[0], command[1..])
  }

  /** The direct bus: every buffer as the chip's own answer fills it. */
  function Direct(execute: (byte, seq<byte>) -> seq<byte>, phases: seq<Phase>): seq<seq<byte>> {
    Filled(phases, Answer(execute, Command(phases)))
  }

  lemma {:induction false} CommandSnoc(phases: seq<Phase>, p: Phase)
    ensures Command(phases + [p]) == Command(phases) + p.Written()
  {
    if phases == [] {
      assert Command([p]) == p.Written() + Command([]);
    } else {
      assert (phases + [p])[1..] == phases[1..] + [p];
      CommandSnoc(phases[1..], p);
    }
  }

  // ---- the bus itself ----

  method Fill(buffer: array<byte>, answer: seq<byte>) returns (rest: seq<byte>)
    modifies buffer
    ensures buffer[..] == Next(answer, buffer.Length)
    ensures rest == Rest(answer, buffer.Length)
  {
    rest := answer;
    for i := 0 to buffer.Length
      invariant rest == Rest(answer, i)
      invariant forall k :: 0 <= k < i ==> buffer[k] == Next(answer, buffer.Length)[k]
    {
      if rest == [] {
        buffer[i] := 0;
      } else {
        buffer[i] := rest[0];
        rest := rest[1..];
      }
    }
  }

  /** What an operation's buffer holds. */
  function Held(op: Operation): seq<byte>
    reads if op.HasBuffer() then {op.buffer} else {}
  {
    if op.HasBuffer() then op.buffer[..] else []
  }

  class VirtualSpi {
    const execute: (byte, seq<byte>) -> seq<byte>

    constructor (execute: (byte, seq<byte>) -> seq<byte>)
      ensures this.execute == execute
    {
      this.execute := execute;
    }

    method Gather(ops: seq<Operation>) returns (command: seq<byte>)
      ensures command == Command(PhasesOf(ops))
    {
      command := [];
      ghost var phases := PhasesOf(ops);
      for i := 0 to |ops|
        invariant phases == PhasesOf(ops)
        invariant command == Command(phases[..i])
      {
        match ops[i] {
          case Write(bytes) => command := command + bytes;
          case Transfer(_, write) => command := command + write;
          case TransferInPlace(buffer) => command := command + buffer[..];
          case _ =>
        }
        assert command == Command(phases[..i]) + phases[i].Written();
        CommandSnoc(phases[..i], phases[i]);
        assert phases[..i + 1] == phases[..i] + [phases[i]];
      }
      assert phases[..|ops|] == phases;
    }

    method Transaction(ops: seq<Operation>)
      requires Separate(ops)
      modifies Buffers(ops)
      ensures forall i :: 0 <= i < |ops| ==>
        Held(ops[i]) == Direct(execute, old(PhasesOf(ops)))[i]
    {
      var command := Gather(ops);
      var reply := if command == [] then [] else execute(command[0], command[1..]);
      FillAll(ops, PhasesOf(ops), reply);
    }
  }

  /** How much of the reply its buffer takes. */
  function Room(op: Operation): nat {
    if op.HasBuffer() then op.buffer.Length else 0
  }

  /** The part of the reply that is this operation's goes into its buffer. */
  method FillOne(op: Operation, reply: seq<byte>) returns (rest: seq<byte>)
    modifies if op.HasBuffer() then {op.buffer} else {}
    ensures Held(op) == Next(reply, Room(op)) && rest == Rest(reply, Room(op))
  {
    match op
    case Read(buffer) => rest := Fill(buffer, reply);
    case TransferInPlace(buffer) => rest := Fill(buffer, reply);
    case Transfer(buffer, _) => rest := Fill(buffer, reply);
    case _ => rest := reply;
  }

  /** The first `i` buffers are filled, and dealing `reply` to the rest completes
      `all`. */
  ghost predicate FilledSoFar(
    phases: seq<Phase>, i: nat, filled: seq<seq<byte>>, reply: seq<byte>, all: seq<seq<byte>>)
  {
    i <= |phases| && |filled| == i
    && filled + Filled(phases[i..], reply) == all
  }

  lemma NothingFilled(phases: seq<Phase>, reply: seq<byte>)
    ensures FilledSoFar(phases, 0, [], reply, Filled(phases, reply))
  {
    assert phases[0..] == phases;
    assert [] + Filled(phases, reply) == Filled(phases, reply);
  }

  lemma OneMoreFilled(
    phases: seq<Phase>, i: nat, filled: seq<seq<byte>>, reply: seq<byte>, all: seq<seq<byte>>)
    requires i < |phases| && FilledSoFar(phases, i, filled, reply, all)
    ensures var n := phases[i].Wanted();
            FilledSoFar(phases, i + 1, filled + [Next(reply, n)], Rest(reply, n), all)
  {
    var n := phases[i].Wanted();
    assert phases[i..][1..] == phases[i + 1..];
    assert Filled(phases[i..], reply) == [Next(reply, n)] + Filled(phases[i + 1..], Rest(reply, n));
    assert filled + ([Next(reply, n)] + Filled(phases[i + 1..], Rest(reply, n)))
        == filled + [Next(reply, n)] + Filled(phases[i + 1..], Rest(reply, n));
  }

  lemma AllFilled(phases: seq<Phase>, filled: seq<seq<byte>>, reply: seq<byte>, all: seq<seq<byte>>)
    requires FilledSoFar(phases, |phases|, filled, reply, all)
    ensures filled == all
  {
    assert Filled(phases[|phases|..], reply) == [];
    assert filled + [] == filled;
  }

  method FillAll(ops: seq<Operation>, ghost phases: seq<Phase>, answer: seq<byte>)
    requires Separate(ops) && |phases| == |ops|
    requires forall k :: 0 <= k < |ops| ==> Room(ops[k]) == phases[k].Wanted()
    modifies Buffers(ops)
    ensures forall i :: 0 <= i < |ops| ==> Held(ops[i]) == Filled(phases, answer)[i]
  {
    var reply := answer;
    ghost var filled, all: seq<seq<byte>> := [], Filled(phases, answer);
    NothingFilled(phases, answer);
    for i := 0 to |ops|
      invariant FilledSoFar(phases, i, filled, reply, all)
      invariant forall k :: 0 <= k < i ==> Held(ops[k]) == filled[k]
    {
      OneMoreFilled(phases, i, filled, reply, all);
      reply := FillOne(ops[i], reply);
      filled := filled + [Held(ops[i])];
    }
    AllFilled(phases, filled, reply, all);
  }
}
