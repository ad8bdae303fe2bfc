/** An SPI transaction carried to a chip on the far side of a serial cable: the
    request and its parsing, the device, and the host that fills the buffers. */
module Bridge {
  import opened Basics
  import opened SpiBus

  const SPI: byte := 0x06
  const SPI_REPLY: byte := 0x86
  const EVENT_DIO1: byte := 0xE1
  const EVENT_ERROR: byte := 0xEE

  const STATUS_OK: byte := 0
  const STATUS_BAD_REQUEST: byte := 2
  const STATUS_TOO_LONG: byte := 3

  const OP_WRITE: byte := 0
  const OP_READ: byte := 1
  const OP_TRANSFER: byte := 2
  const OP_DELAY: byte := 3

  /** The most a decoded frame may hold, either way. */
  const FRAME_LIMIT: nat := 1_100

  datatype BridgeError = Timeout | Status(status: byte) | Device(code: byte) | Protocol

  // ---- the request ----

  /** `u16::try_from(n).unwrap_or(u16::MAX)`. */
  function Saturated(n: nat): u16 {
    if n > 0xFFFF then 0xFFFF else n
  }

  function Zeros(n: nat): seq<byte> {
    seq(n, _ => 0)
  }

  /** One operation as the device sees it: what kind, how many bytes to read
      back or microseconds to pause, and the bytes to clock out. */
  datatype Op = Op(kind: byte, length: nat, bytes: seq<byte>)

  /** A transfer clocks out its write side, then zeros for a longer read side. */
  function OpOf(p: Phase): Op {
    match p
    case Out(bytes) => Op(OP_WRITE, |bytes|, bytes)
    case In(length) => Op(OP_READ, length, [])
    case Both(length, write) =>
      var all := Max(length, |write|);
      Op(OP_TRANSFER, all, write + Zeros(all - |write|))
    case Swap(held) => Op(OP_TRANSFER, |held|, held)
    case Pause(ns) => Op(OP_DELAY, DivCeil(ns, 1_000), [])
  }

  function Item(op: Op): seq<byte> {
    [op.kind] + LittleEndian(Saturated(op.length), 2) + op.bytes
  }

  function Request(phases: seq<Phase>): seq<byte> {
    if phases == [] then [] else Item(OpOf(phases[0])) + Request(phases[1..])
  }

  lemma {:induction false} RequestSnoc(phases: seq<Phase>, p: Phase)
    ensures Request(phases + [p]) == Request(phases) + Item(OpOf(p))
  {
    if phases == [] {
      assert Request([p]) == Item(OpOf(p)) + Request([]);
    } else {
      assert (phases + [p])[1..] == phases[1..] + [p];
      RequestSnoc(phases[1..], p);
    }
  }

  method Push(out: seq<byte>, kind: byte, length: nat, bytes: seq<byte>) returns (more: seq<byte>)
    ensures more == out + Item(Op(kind, length, bytes))
  {
    var short := if length > 0xFFFF then 0xFFFF else length;
    more := out + [kind] + LittleEndian(short, 2) + bytes;
  }

  method EncodeOperation(out: seq<byte>, op: Operation) returns (more: seq<byte>)
    ensures more == out + Item(OpOf(PhaseOf(op)))
  {
    match op
    case Write(bytes) => more := Push(out, OP_WRITE, |bytes|, bytes);
    case Read(buffer) => more := Push(out, OP_READ, buffer.Length, []);
    case Transfer(buffer, write) =>
      var length := Max(buffer.Length, |write|);
      more := Push(out, OP_TRANSFER, length, write + Zeros(length - |write|));
    case TransferInPlace(buffer) => more := Push(out, OP_TRANSFER, buffer.Length, buffer[..]);
    case DelayNs(ns) => more := Push(out, OP_DELAY, DivCeil(ns, 1_000), []);
  }

  method EncodeOperations(ops: seq<Operation>) returns (out: seq<byte>)
    ensures out == Request(PhasesOf(ops))
  {
    out := [];
    ghost var phases := PhasesOf(ops);
    for i := 0 to |ops|
      invariant phases == PhasesOf(ops)
      invariant out == Request(phases[..i])
    {
      out := EncodeOperation(out, ops[i]);
      RequestSnoc(phases[..i], phases[i]);
      assert phases[..i + 1] == phases[..i] + [phases[i]];
    }
    assert phases[..|ops|] == phases;
  }

  // ---- parsing it ----

  /** The first operation and what follows it. */
  function ParseOne(payload: seq<byte>): (r: Option<(Op, seq<byte>)>)
    ensures r.Some? ==> |r.value.1| < |payload|
  {
    if |payload| < 3 then None
    else
      var kind, length, after := payload[0], FromLittleEndian(payload[1..3]), payload[3..];
      if kind == OP_WRITE || kind == OP_TRANSFER then
        if length > |after| then None
        else Some((Op(kind, length, after[..length]), after[length..]))
      else if kind == OP_READ || kind == OP_DELAY then Some((Op(kind, length, []), after))
      else None
  }

  function Parsed(payload: seq<byte>): Option<seq<Op>>
    decreases |payload|
  {
    if payload == [] then Some([])
    else
      match ParseOne(payload)
      case None => None
      case Some((op, rest)) =>
        match Parsed(rest)
        case None => None
        case Some(ops) => Some([op] + ops)
  }

  /** What parsing gives once `ops` have been read and `rest` is to come. */
  function Onto(ops: seq<Op>, rest: seq<byte>): Option<seq<Op>> {
    match Parsed(rest)
    case None => None
    case Some(more) => Some(ops + more)
  }

  lemma OntoOne(ops: seq<Op>, rest: seq<byte>)
    requires rest != []
    ensures match ParseOne(rest)
            case None => Onto(ops, rest) == None
            case Some((op, after)) => Onto(ops, rest) == Onto(ops + [op], after)
  {
    if ParseOne(rest).Some? && Parsed(ParseOne(rest).value.1).Some? {
      var (op, after) := ParseOne(rest).value;
      var more := Parsed(after).value;
      assert ops + ([op] + more) == (ops + [op]) + more;
    }
  }

  lemma OntoEnds(ops: seq<Op>, payload: seq<byte>)
    ensures Onto([], payload) == Parsed(payload) && Onto(ops, []) == Some(ops)
  {
    assert ops + [] == ops;
    if Parsed(payload).Some? {
      assert [] + Parsed(payload).value == Parsed(payload).value;
    }
  }

  method DecodeOperations(payload: seq<byte>) returns (r: Option<seq<Op>>)
    ensures r == Parsed(payload)
  {
    var ops: seq<Op> := [];
    var rest := payload;
    OntoEnds(ops, payload);
    while rest != []
      invariant Parsed(payload) == Onto(ops, rest)
      decreases |rest|
    {
      OntoOne(ops, rest);
      var one := ParseOne(rest);
      if one == None {
        return None;
      }
      ops := ops + [one.value.0];
      rest := one.value.1;
    }
    OntoEnds(ops, payload);
    return Some(ops);
  }

  /** What the device reads where the host wrote this operation. */
  function Seen(p: Phase): Op {
    OpOf(p).(length := Saturated(OpOf(p).length))
  }

  function SeenAll(phases: seq<Phase>): (r: seq<Op>)
    ensures |r| == |phases|
  {
    if phases == [] then [] else [Seen(phases[0])] + SeenAll(phases[1..])
  }

  lemma ItemParses(p: Phase, rest: seq<byte>)
    requires |OpOf(p).bytes| <= 0xFFFF
    ensures ParseOne(Item(OpOf(p)) + rest) == Some((Seen(p), rest))
  {
    var op := OpOf(p);
    var payload := Item(op) + rest;
    SpanValues();
    LittleEndianRoundTrip(Saturated(op.length), 2);
    assert payload[1..3] == LittleEndian(Saturated(op.length), 2);
    assert payload[3..] == op.bytes + rest;
    assert op.bytes == [] || |op.bytes| == op.length;
    assert (op.bytes + rest)[..|op.bytes|] == op.bytes && (op.bytes + rest)[|op.bytes|..] == rest;
  }

  /** Every request that carries at most `u16::MAX` bytes an operation is read
      back as it was meant. */
  lemma {:induction false} RequestParses(phases: seq<Phase>)
    requires forall i :: 0 <= i < |phases| ==> |OpOf(phases[i]).bytes| <= 0xFFFF
    ensures Parsed(Request(phases)) == Some(SeenAll(phases))
  {
    if phases != [] {
      ItemParses(phases[0], Request(phases[1..]));
      RequestParses(phases[1..]);
    }
  }

  /** An operation that a request can carry: of a kind the device knows, and with as
      many bytes as it says if its kind brings any. */
  predicate Carriable(op: Op) {
    op.length <= 0xFFFF
    && if op.kind == OP_WRITE || op.kind == OP_TRANSFER then |op.bytes| == op.length
       else (op.kind == OP_READ || op.kind == OP_DELAY) && op.bytes == []
  }

  function Items(ops: seq<Op>): seq<byte> {
    if ops == [] then [] else Item(ops[0]) + Items(ops[1..])
  }

  lemma CarriableParses(op: Op, rest: seq<byte>)
    requires Carriable(op)
    ensures ParseOne(Item(op) + rest) == Some((op, rest))
  {
    var payload := Item(op) + rest;
    SpanValues();
    LittleEndianRoundTrip(op.length, 2);
    assert payload[1..3] == LittleEndian(op.length, 2);
    assert payload[3..] == op.bytes + rest;
    assert (op.bytes + rest)[..|op.bytes|] == op.bytes && (op.bytes + rest)[|op.bytes|..] == rest;
  }

  lemma ParsedIsCarriable(payload: seq<byte>)
    requires ParseOne(payload).Some?
    ensures Carriable(ParseOne(payload).value.0)
    ensures payload == Item(ParseOne(payload).value.0) + ParseOne(payload).value.1
  {
    var op, after := ParseOne(payload).value.0, payload[3..];
    FromLittleEndianRoundTrip(payload[1..3]);
    SpanValues();
    assert payload == [op.kind] + payload[1..3] + after;
    assert op.bytes + ParseOne(payload).value.1 == after;
  }

  /** The device reads a request as these operations exactly if it is made of them,
      one after the other, each of a kind it knows and as long as it says. */
  lemma {:induction false} ParsedExactly(payload: seq<byte>, ops: seq<Op>)
    ensures Parsed(payload) == Some(ops)
       <==> payload == Items(ops) && forall i :: 0 <= i < |ops| ==> Carriable(ops[i])
    decreases |payload| + |ops|
  {
    if Parsed(payload) == Some(ops) && payload != [] {
      var (op, rest) := ParseOne(payload).value;
      ParsedIsCarriable(payload);
      assert ops == [op] + Parsed(rest).value;
      ParsedExactly(rest, ops[1..]);
    }
    if payload == Items(ops) && ops != [] && forall i :: 0 <= i < |ops| ==> Carriable(ops[i]) {
      CarriableParses(ops[0], Items(ops[1..]));
      ParsedExactly(Items(ops[1..]), ops[1..]);
      assert ops == [ops[0]] + ops[1..];
    }
  }

  /** A transfer clocks out what is written and then zeros, over its longer side. */
  lemma ClockedAtLength(length: nat, write: seq<byte>, k: nat)
    ensures |OpOf(Both(length, write)).bytes| == OpOf(Both(length, write)).length == Max(length, |write|)
    ensures k < Max(length, |write|) ==>
      OpOf(Both(length, write)).bytes[k] == if k < |write| then write[k] else 0
  {
  }

  /** The device waits at least as long as it was asked to exactly for pauses that the
      length field can say in microseconds. */
  lemma PauseIsLongEnoughExactly(ns: u32)
    ensures 1_000 * Seen(Pause(ns)).length >= ns <==> ns <= 65_535_000
    ensures ns <= 65_535_000 ==> 1_000 * Seen(Pause(ns)).length < ns + 1_000
  {
  }

  lemma {:induction false} ItemsFitRequest(phases: seq<Phase>, i: nat)
    requires i < |phases|
    ensures |OpOf(phases[i]).bytes| <= |Request(phases)|
  {
    if i > 0 {
      ItemsFitRequest(phases[1..], i - 1);
    }
  }

  // ---- the device ----

  predicate Answers(op: Op) {
    op.kind == OP_READ || op.kind == OP_TRANSFER
  }

  function WantedBy(ops: seq<Op>): nat {
    if ops == [] then 0
    else (if Answers(ops[0]) then ops[0].length else 0) + WantedBy(ops[1..])
  }

  function Clocked(ops: seq<Op>): seq<byte> {
    if ops == [] then [] else ops[0].bytes + Clocked(ops[1..])
  }

  /** The payload of the device's reply to an SPI request. */
  function DeviceReply(execute: (byte, seq<byte>) -> seq<byte>, payload: seq<byte>): seq<byte> {
    match Parsed(payload)
    case None => [STATUS_BAD_REQUEST]
    case Some(ops) =>
      if WantedBy(ops) + 1 > FRAME_LIMIT then [STATUS_TOO_LONG]
      else [STATUS_OK] + Next(Answer(execute, Clocked(ops)), WantedBy(ops))
  }

  lemma NextSplits(answer: seq<byte>, m: nat, n: nat)
    ensures Next(answer, m + n) == Next(answer, m) + Next(Rest(answer, m), n)
    ensures Rest(Rest(answer, m), n) == Rest(answer, m + n)
  {
  }

  lemma {:induction false} WantedBySnoc(ops: seq<Op>, op: Op)
    ensures WantedBy(ops + [op]) == WantedBy(ops) + if Answers(op) then op.length else 0
    ensures Clocked(ops + [op]) == Clocked(ops) + op.bytes
  {
    if ops == [] {
      assert Clocked([op]) == op.bytes + Clocked([]);
    } else {
      assert (ops + [op])[1..] == ops[1..] + [op];
      WantedBySnoc(ops[1..], op);
    }
  }

  method Totals(ops: seq<Op>) returns (wanted: nat, command: seq<byte>)
    ensures wanted == WantedBy(ops) && command == Clocked(ops)
  {
    wanted, command := 0, [];
    for i := 0 to |ops|
      invariant wanted == WantedBy(ops[..i]) && command == Clocked(ops[..i])
    {
      WantedBySnoc(ops[..i], ops[i]);
      assert ops[..i + 1] == ops[..i] + [ops[i]];
      if Answers(ops[i]) {
        wanted := wanted + ops[i].length;
      }
      command := command + ops[i].bytes;
    }
    assert ops[..|ops|] == ops;
  }

  lemma DealtSnoc(ops: seq<Op>, i: nat, answer: seq<byte>)
    requires i < |ops|
    ensures var given := WantedBy(ops[..i]);
            Next(answer, WantedBy(ops[..i + 1]))
            == Next(answer, given)
               + (if Answers(ops[i]) then Next(Rest(answer, given), ops[i].length) else [])
  {
    WantedBySnoc(ops[..i], ops[i]);
    assert ops[..i + 1] == ops[..i] + [ops[i]];
    if Answers(ops[i]) {
      NextSplits(answer, WantedBy(ops[..i]), ops[i].length);
    }
  }

  /** The reply's bytes, operation by operation. */
  method Deal(ops: seq<Op>, answer: seq<byte>) returns (dealt: seq<byte>)
    ensures dealt == Next(answer, WantedBy(ops))
  {
    dealt := [];
    var left := answer;
    for i := 0 to |ops|
      invariant dealt == Next(answer, WantedBy(ops[..i])) && left == Rest(answer, WantedBy(ops[..i]))
    {
      DealtSnoc(ops, i, answer);
      WantedBySnoc(ops[..i], ops[i]);
      assert ops[..i + 1] == ops[..i] + [ops[i]];
      if Answers(ops[i]) {
        dealt := dealt + Next(left, ops[i].length);
        NextSplits(answer, WantedBy(ops[..i]), ops[i].length);
        left := Rest(left, ops[i].length);
      }
    }
    assert ops[..|ops|] == ops;
  }

  method Spi(execute: (byte, seq<byte>) -> seq<byte>, payload: seq<byte>) returns (reply: seq<byte>)
    ensures reply == DeviceReply(execute, payload)
  {
    var parsed := DecodeOperations(payload);
    if parsed == None {
      return [STATUS_BAD_REQUEST];
    }
    var wanted, command := Totals(parsed.value);
    if wanted + 1 > FRAME_LIMIT {
      return [STATUS_TOO_LONG];
    }
    var answer := if command == [] then [] else execute(command[0], command[1..]);
    var dealt := Deal(parsed.value, answer);
    return [STATUS_OK] + dealt;
  }

  // ---- the host ----

  /** Reply bytes a transfer clocked for a write side longer than its read side. */
  function Skipped(p: Phase): nat {
    match p
    case Both(length, write) => if |write| > length then |write| - length else 0
    case _ => 0
  }

  /** The reply dealt out to the buffers; `None` if it runs short. */
  function CopiedBack(phases: seq<Phase>, bytes: seq<byte>): (r: Option<seq<seq<byte>>>)
    ensures r.Some? ==> |r.value| == |phases|
  {
    if phases == [] then Some([])
    else
      var n := phases[0].Wanted();
      var wanted := n + Skipped(phases[0]);
      if wanted > |bytes| then None
      else
        match CopiedBack(phases[1..], bytes[wanted..])
        case None => None
        case Some(rest) => Some([bytes[..n]] + rest)
  }

  /** The buffers filled before the reply ran short, or all of them. */
  function Copied(phases: seq<Phase>, bytes: seq<byte>): (r: seq<seq<byte>>)
    ensures |r| <= |phases|
  {
    if phases == [] then []
    else
      var n := phases[0].Wanted();
      var wanted := n + Skipped(phases[0]);
      if wanted > |bytes| then [] else [bytes[..n]] + Copied(phases[1..], bytes[wanted..])
  }

  lemma {:induction false} CopiedBackExactly(phases: seq<Phase>, bytes: seq<byte>)
    ensures CopiedBack(phases, bytes)
         == if |Copied(phases, bytes)| == |phases| then Some(Copied(phases, bytes)) else None
    decreases |phases|
  {
    if phases != [] {
      var wanted := phases[0].Wanted() + Skipped(phases[0]);
      if wanted <= |bytes| {
        CopiedBackExactly(phases[1..], bytes[wanted..]);
      }
    }
  }

  /** The buffers a transaction gets to fill, whatever comes of it. */
  function Landed(call: seq<byte> -> Result<seq<byte>, BridgeError>, phases: seq<Phase>): seq<seq<byte>> {
    match call(Request(phases))
    case Err(_) => []
    case Ok(reply) => LandedFrom(phases, reply)
  }

  function LandedFrom(phases: seq<Phase>, reply: seq<byte>): seq<seq<byte>> {
    if reply == [] || reply[0] != STATUS_OK then [] else Copied(phases, reply[1..])
  }

  /** What a transaction comes to, given how the link answers a request. */
  function Transacted(call: seq<byte> -> Result<seq<byte>, BridgeError>, phases: seq<Phase>)
    : Result<seq<seq<byte>>, BridgeError>
  {
    match call(Request(phases))
    case Err(error) => Err(error)
    case Ok(reply) =>
      if reply == [] then Err(Protocol)
      else if reply[0] != STATUS_OK then Err(Status(reply[0]))
      else
        match CopiedBack(phases, reply[1..])
        case None => Err(Protocol)
        case Some(buffers) => Ok(buffers)
  }

  /** What fails lands nowhere, short replies aside: an error on the way, no reply at
      all or a refusal leaves every buffer alone, and a refusal is told as it came. */
  lemma FailureLandsNowhere(call: seq<byte> -> Result<seq<byte>, BridgeError>, phases: seq<Phase>, status: byte)
    ensures call(Request(phases)).Err? ==>
      Landed(call, phases) == [] && Transacted(call, phases) == Err(call(Request(phases)).error)
    ensures call(Request(phases)) == Ok([]) ==>
      Landed(call, phases) == [] && Transacted(call, phases) == Err(Protocol)
    ensures call(Request(phases)).Ok? && call(Request(phases)).value != []
            && call(Request(phases)).value[0] == status && status != 0 ==>
      Landed(call, phases) == [] && Transacted(call, phases) == Err(Status(status))
  {
  }

  /** Dealing out the rest of a reply once some buffers are filled. */
  function Dealing(filled: seq<seq<byte>>, phases: seq<Phase>, bytes: seq<byte>): seq<seq<byte>> {
    filled + Copied(phases, bytes)
  }

  lemma DealingOne(filled: seq<seq<byte>>, phases: seq<Phase>, i: nat, bytes: seq<byte>)
    requires i < |phases|
    ensures var n, wanted := phases[i].Wanted(), phases[i].Wanted() + Skipped(phases[i]);
            Dealing(filled, phases[i..], bytes)
            == if wanted > |bytes| then filled
               else Dealing(filled + [bytes[..n]], phases[i + 1..], bytes[wanted..])
  {
    assert phases[i..][1..] == phases[i + 1..];
    var n, wanted := phases[i].Wanted(), phases[i].Wanted() + Skipped(phases[i]);
    if wanted <= |bytes| {
      Associative(filled, [bytes[..n]], Copied(phases[i + 1..], bytes[wanted..]));
    } else {
      assert filled + [] == filled;
    }
  }

  lemma DealingEnds(filled: seq<seq<byte>>, phases: seq<Phase>, bytes: seq<byte>)
    ensures Dealing([], phases, bytes) == Copied(phases, bytes)
    ensures Dealing(filled, [], bytes) == filled
  {
    assert filled + [] == filled;
    assert [] + Copied(phases, bytes) == Copied(phases, bytes);
  }

  method Copy(buffer: array<byte>, bytes: seq<byte>)
    requires buffer.Length <= |bytes|
    modifies buffer
    ensures buffer[..] == bytes[..buffer.Length]
  {
    for k := 0 to buffer.Length
      invariant buffer[..k] == bytes[..k]
    {
      buffer[k] := bytes[k];
    }
  }

  /** The share of the reply that is an operation's. */
  function Share(op: Operation): nat {
    match op
    case Read(buffer) => buffer.Length
    case TransferInPlace(buffer) => buffer.Length
    case Transfer(buffer, write) => Max(buffer.Length, |write|)
    case _ => 0
  }

  lemma SharesAre(ops: seq<Operation>)
    ensures Matched(ops, PhasesOf(ops))
  {
  }

  /** One operation's share of the reply; `None`, and nothing touched, if it is
      short. */
  method CopyOne(op: Operation, bytes: seq<byte>) returns (rest: Option<seq<byte>>)
    modifies if op.HasBuffer() then {op.buffer} else {}
    ensures if Share(op) > |bytes| then rest == None && Held(op) == old(Held(op))
            else rest == Some(bytes[Share(op)..]) && Held(op) == bytes[..Room(op)]
  {
    if !op.HasBuffer() {
      return Some(bytes);
    }
    var skip := if op.Transfer? && |op.write| > op.buffer.Length then |op.write| - op.buffer.Length
                else 0;
    var wanted := op.buffer.Length + skip;
    if wanted > |bytes| {
      return None;
    }
    Copy(op.buffer, bytes[..wanted]);
    assert bytes[..wanted][..op.buffer.Length] == bytes[..op.buffer.Length];
    return Some(bytes[wanted..]);
  }

  /** The first `i` buffers are filled, and dealing `bytes` to the rest completes
      `all`. */
  ghost predicate CopiedSoFar(
    phases: seq<Phase>, i: nat, filled: seq<seq<byte>>, bytes: seq<byte>, all: seq<seq<byte>>)
  {
    i <= |phases| && |filled| == i && Dealing(filled, phases[i..], bytes) == all
  }

  lemma OneMoreCopied(
    phases: seq<Phase>, i: nat, filled: seq<seq<byte>>, bytes: seq<byte>, all: seq<seq<byte>>)
    requires i < |phases| && CopiedSoFar(phases, i, filled, bytes, all)
    ensures var n, wanted := phases[i].Wanted(), phases[i].Wanted() + Skipped(phases[i]);
            if wanted > |bytes| then filled == all
            else CopiedSoFar(phases, i + 1, filled + [bytes[..n]], bytes[wanted..], all)
  {
    DealingOne(filled, phases, i, bytes);
  }

  lemma AllCopied(phases: seq<Phase>, filled: seq<seq<byte>>, bytes: seq<byte>, all: seq<seq<byte>>)
    requires CopiedSoFar(phases, |phases|, filled, bytes, all)
    ensures filled == all
  {
    assert phases[|phases|..] == [];
    DealingEnds(filled, phases, bytes);
  }

  /** What the buffers hold once the first of them are filled. */
  ghost predicate FilledOver(ops: seq<Operation>, filled: seq<seq<byte>>, before: seq<seq<byte>>)
    requires |before| == |ops|
    reads Buffers(ops)
  {
    forall k :: 0 <= k < |ops| ==> Held(ops[k]) == if k < |filled| then filled[k] else before[k]
  }

  method CopyNext(ops: seq<Operation>, i: nat, ghost filled: seq<seq<byte>>,
                  ghost before: seq<seq<byte>>, bytes: seq<byte>)
    returns (rest: Option<seq<byte>>)
    requires Separate(ops) && i == |filled| < |ops| == |before| && FilledOver(ops, filled, before)
    modifies if ops[i].HasBuffer() then {ops[i].buffer} else {}
    ensures if Share(ops[i]) > |bytes| then rest == None && FilledOver(ops, filled, before)
            else rest == Some(bytes[Share(ops[i])..])
                 && FilledOver(ops, filled + [bytes[..Room(ops[i])]], before)
  {
    rest := CopyOne(ops[i], bytes);
    forall k | 0 <= k < |ops| && k != i
      ensures Held(ops[k]) == old(Held(ops[k]))
    {
    }
    assert Held(ops[i]) == if rest == None then before[i] else bytes[..Room(ops[i])];
  }

  /** The phases are these operations', as far as shares go. */
  ghost predicate Matched(ops: seq<Operation>, phases: seq<Phase>) {
    |phases| == |ops|
    && forall k :: 0 <= k < |ops| ==>
         Share(ops[k]) == phases[k].Wanted() + Skipped(phases[k]) && Room(ops[k]) == phases[k].Wanted()
  }

  /** Everything that dealing out a reply keeps true of it. */
  ghost predicate InHand(
    ops: seq<Operation>, phases: seq<Phase>, before: seq<seq<byte>>, i: nat, filled: seq<seq<byte>>,
    bytes: seq<byte>, all: seq<seq<byte>>)
    reads Buffers(ops)
  {
    Separate(ops) && Matched(ops, phases) && |before| == |ops|
    && CopiedSoFar(phases, i, filled, bytes, all) && FilledOver(ops, filled, before)
  }

  method CopyStep(ops: seq<Operation>, ghost phases: seq<Phase>, ghost before: seq<seq<byte>>, i: nat,
                  ghost filled: seq<seq<byte>>, bytes: seq<byte>, ghost all: seq<seq<byte>>)
    returns (rest: Option<seq<byte>>, ghost more: seq<seq<byte>>)
    requires i < |ops| && InHand(ops, phases, before, i, filled, bytes, all)
    modifies Buffers(ops)
    ensures rest == None ==> filled == all && |all| < |phases| && FilledOver(ops, all, before)
    ensures rest.Some? ==> InHand(ops, phases, before, i + 1, more, rest.value, all)
  {
    OneMoreCopied(phases, i, filled, bytes, all);
    rest := CopyNext(ops, i, filled, before, bytes);
    more := if rest == None then filled else filled + [bytes[..Room(ops[i])]];
  }

  method CopyAll(ops: seq<Operation>, ghost phases: seq<Phase>, ghost before: seq<seq<byte>>,
                 reply: seq<byte>)
    returns (ok: bool)
    requires InHand(ops, phases, before, 0, [], reply, Copied(phases, reply))
    modifies Buffers(ops)
    ensures ok == (|Copied(phases, reply)| == |phases|)
    ensures |before| == |ops| && FilledOver(ops, Copied(phases, reply), before)
  {
    var bytes := reply;
    ghost var all, filled: seq<seq<byte>> := Copied(phases, reply), [];
    for i := 0 to |ops|
      invariant InHand(ops, phases, before, i, filled, bytes, all)
    {
      var rest, more := CopyStep(ops, phases, before, i, filled, bytes, all);
      if rest == None {
        return false;
      }
      filled, bytes := more, rest.value;
    }
    AllCopied(phases, filled, bytes, all);
    return true;
  }

  /** Whether a reply is a good one, and long enough. */
  function Judged(phases: seq<Phase>, reply: seq<byte>): Result<(), BridgeError> {
    if reply == [] then Err(Protocol)
    else if reply[0] != STATUS_OK then Err(Status(reply[0]))
    else if |Copied(phases, reply[1..])| < |phases| then Err(Protocol)
    else Ok(())
  }

  /** The answer without the buffers. */
  function Plain(r: Result<seq<seq<byte>>, BridgeError>): Result<(), BridgeError> {
    match r
    case Err(error) => Err(error)
    case Ok(_) => Ok(())
  }

  /** A transaction that succeeds has filled all the buffers there are. */
  lemma TransactedLands(call: seq<byte> -> Result<seq<byte>, BridgeError>, phases: seq<Phase>)
    ensures Transacted(call, phases).Ok? ==>
      Landed(call, phases) == Transacted(call, phases).value && |Landed(call, phases)| == |phases|
  {
    var answered := call(Request(phases));
    if answered.Ok? && answered.value != [] {
      CopiedBackExactly(phases, answered.value[1..]);
    }
  }

  lemma AnsweredIsTransacted(call: seq<byte> -> Result<seq<byte>, BridgeError>, phases: seq<Phase>)
    ensures call(Request(phases)).Ok? ==>
      Plain(Transacted(call, phases)) == Judged(phases, call(Request(phases)).value)
  {
    var answered := call(Request(phases));
    if answered.Ok? && answered.value != [] {
      CopiedBackExactly(phases, answered.value[1..]);
    }
  }

  /** The buffers as they were. */
  ghost function HeldAll(ops: seq<Operation>): (held: seq<seq<byte>>)
    reads Buffers(ops)
    ensures |held| == |ops| && forall k :: 0 <= k < |ops| ==> held[k] == Held(ops[k])
  {
    seq(|ops|, k requires 0 <= k < |ops| reads Buffers(ops) => Held(ops[k]))
  }

  method Deliver(ops: seq<Operation>, ghost phases: seq<Phase>, ghost before: seq<seq<byte>>,
                 reply: seq<byte>)
    returns (r: Result<(), BridgeError>)
    requires Separate(ops) && Matched(ops, phases) && before == HeldAll(ops)
    modifies Buffers(ops)
    ensures r == Judged(phases, reply)
    ensures FilledOver(ops, LandedFrom(phases, reply), before)
  {
    if reply == [] {
      return Err(Protocol);
    }
    if reply[0] != STATUS_OK {
      return Err(Status(reply[0]));
    }
    DealingEnds([], phases, reply[1..]);
    assert phases[0..] == phases;
    var ok := CopyAll(ops, phases, before, reply[1..]);
    return if ok then Ok(()) else Err(Protocol);
  }

  class BridgeSpi {
    const call: seq<byte> -> Result<seq<byte>, BridgeError>

    constructor (call: seq<byte> -> Result<seq<byte>, BridgeError>)
      ensures this.call == call
    {
      this.call := call;
    }

    method Transaction(ops: seq<Operation>) returns (r: Result<(), BridgeError>)
      requires Separate(ops)
      modifies Buffers(ops)
      ensures r == Plain(Transacted(call, old(PhasesOf(ops))))
      ensures FilledOver(ops, Landed(call, old(PhasesOf(ops))), old(HeldAll(ops)))
    {
      ghost var phases, before := PhasesOf(ops), HeldAll(ops);
      SharesAre(ops);
      AnsweredIsTransacted(call, phases);
      var payload := EncodeOperations(ops);
      var answered := call(payload);
      if answered.Err? {
        return Err(answered.error);
      }
      r := Deliver(ops, phases, before, answered.value);
    }
  }
}
