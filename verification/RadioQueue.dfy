/** What is waiting to go out: bounded, without repeats, and fair between two
    classes. */
module RadioQueue {
  import opened Basics
  import opened Journal

  const DISTRESS_BURST: nat := 8
  const MAX_DEDUP_ENTRIES: nat := 1_024

  datatype QueueError = Full | Duplicate

  datatype Priority = Routine | Distress

  datatype Queue = Queue(
    distress: seq<OutgoingFrame>,
    routine: seq<OutgoingFrame>,
    seen: set<u64>,
    seenOrder: seq<u64>,
    maxItems: nat,
    maxBytes: nat,
    queuedBytes: nat,
    streak: byte)

  function Empty(maxItems: nat, maxBytes: nat): Queue {
    Queue([], [], {}, [], maxItems, maxBytes, 0, 0)
  }

  function Lane(q: Queue, p: Priority): seq<OutgoingFrame> {
    if p == Distress then q.distress else q.routine
  }

  function Size(frames: seq<OutgoingFrame>): nat {
    if frames == [] then 0 else |frames[0].bytes| + Size(frames[1..])
  }

  function Unexpired(frames: seq<OutgoingFrame>, now: u64): (r: seq<OutgoingFrame>)
    ensures |r| <= |frames|
  {
    if frames == [] then []
    else
      var last := |frames| - 1;
      Unexpired(frames[..last], now) + if Expired(frames[last], now) then [] else [frames[last]]
  }

  function Without(s: seq<u64>, x: u64): seq<u64> {
    if s == [] then [] else (if s[0] == x then [] else [s[0]]) + Without(s[1..], x)
  }

  predicate Distinct(s: seq<u64>) {
    forall i, j :: 0 <= i < j < |s| ==> s[i] != s[j]
  }

  function Elements(s: seq<u64>): set<u64> {
    set x | x in s
  }

  /** Byte count and caps are exact; the identities remembered are a set and its
      order of arrival, without repeats and never too many. */
  predicate Sound(q: Queue) {
    q.queuedBytes == Size(q.distress) + Size(q.routine)
    && q.queuedBytes <= q.maxBytes
    && |q.distress| + |q.routine| <= q.maxItems
    && q.seen == Elements(q.seenOrder) && Distinct(q.seenOrder)
    && |q.seenOrder| <= MAX_DEDUP_ENTRIES
  }

  // ---- the operations ----

  function Remembered(q: Queue, sequence: u64): Queue {
    var order := q.seenOrder + [sequence];
    if |order| > MAX_DEDUP_ENTRIES then
      q.(seen := q.seen + {sequence} - {order[0]}, seenOrder := order[1..])
    else q.(seen := q.seen + {sequence}, seenOrder := order)
  }

  function Offered(q: Queue, frame: OutgoingFrame, p: Priority): (Queue, Result<(), QueueError>) {
    if frame.sequence in q.seen then (q, Err(Duplicate))
    else if |q.distress| + |q.routine| >= q.maxItems
      || q.queuedBytes + |frame.bytes| > q.maxBytes then (q, Err(Full))
    else
      var r := Remembered(q, frame.sequence).(queuedBytes := q.queuedBytes + |frame.bytes|);
      (if p == Distress then r.(distress := r.distress + [frame])
       else r.(routine := r.routine + [frame]), Ok(()))
  }

  /** Which class gives the next frame. */
  function NextLane(q: Queue): Option<Priority> {
    if (q.distress == [] || q.streak >= DISTRESS_BURST) && q.routine != [] then Some(Routine)
    else if q.distress != [] then Some(Distress)
    else None
  }

  function Taken(q: Queue): (Queue, Option<OutgoingFrame>) {
    match NextLane(q)
    case None => (q, None)
    case Some(Routine) =>
      var f := q.routine[0];
      (q.(routine := q.routine[1..], streak := 0,
          queuedBytes := Max(q.queuedBytes - |f.bytes|, 0)), Some(f))
    case Some(Distress) =>
      var f := q.distress[0];
      (q.(distress := q.distress[1..], streak := Min(q.streak + 1, 255),
          queuedBytes := Max(q.queuedBytes - |f.bytes|, 0)), Some(f))
  }

  function Forgotten(q: Queue, sequence: u64): Queue {
    if sequence in q.seen then
      q.(seen := q.seen - {sequence}, seenOrder := Without(q.seenOrder, sequence))
    else q
  }

  function Pruned(q: Queue, now: u64): Queue {
    var d, r := Unexpired(q.distress, now), Unexpired(q.routine, now);
    q.(distress := d, routine := r, queuedBytes := Size(d) + Size(r))
  }

  // ---- what the operations keep ----

  lemma {:induction false} BytesConcat(a: seq<OutgoingFrame>, b: seq<OutgoingFrame>)
    ensures Size(a + b) == Size(a) + Size(b)
    decreases |a|
  {
    if a == [] {
      assert a + b == b;
    } else {
      assert (a + b)[1..] == a[1..] + b;
      BytesConcat(a[1..], b);
    }
  }

  lemma BytesOne(f: OutgoingFrame)
    ensures Size([f]) == |f.bytes|
  {
    assert [f][1..] == [];
  }

  lemma {:induction false} BytesUnexpired(frames: seq<OutgoingFrame>, now: u64)
    ensures Size(Unexpired(frames, now)) <= Size(frames)
  {
    if frames != [] {
      var last := |frames| - 1;
      BytesUnexpired(frames[..last], now);
      assert frames == frames[..last] + [frames[last]];
      BytesConcat(frames[..last], [frames[last]]);
      BytesConcat(Unexpired(frames[..last], now), [frames[last]]);
      if Expired(frames[last], now) {
        assert Unexpired(frames, now) == Unexpired(frames[..last], now);
      }
    }
  }

  lemma RememberedSound(q: Queue, sequence: u64)
    requires Sound(q) && sequence !in q.seen
    ensures Sound(Remembered(q, sequence))
  {
    var order := q.seenOrder + [sequence];
    assert Elements(order) == q.seen + {sequence};
    assert Distinct(order) by {
      forall i, j | 0 <= i < j < |order|
        ensures order[i] != order[j]
      {
        assert order[i] in q.seenOrder;
      }
    }
    if |order| > MAX_DEDUP_ENTRIES {
      DropFirst(order);
    }
  }

  lemma DropFirst(order: seq<u64>)
    requires order != [] && Distinct(order)
    ensures Distinct(order[1..]) && Elements(order[1..]) == Elements(order) - {order[0]}
  {
    assert order == [order[0]] + order[1..];
    forall x | x in order[1..]
      ensures x != order[0]
    {
      var k :| 0 <= k < |order[1..]| && order[1..][k] == x;
      assert order[k + 1] == x;
    }
  }

  lemma OfferSound(q: Queue, frame: OutgoingFrame, p: Priority)
    requires Sound(q)
    ensures Sound(Offered(q, frame, p).0)
  {
    if Offered(q, frame, p).1.Ok? {
      RememberedSound(q, frame.sequence);
      BytesConcat(Lane(q, p), [frame]);
      BytesOne(frame);
    }
  }

  lemma TakeSound(q: Queue)
    requires Sound(q)
    ensures Sound(Taken(q).0)
    ensures Taken(q).1.Some? ==>
      Taken(q).0.queuedBytes == q.queuedBytes - |Taken(q).1.value.bytes|
  {
  }

  lemma DistinctCons(x: u64, rest: seq<u64>)
    requires Distinct(rest) && x !in Elements(rest)
    ensures Distinct([x] + rest) && Elements([x] + rest) == {x} + Elements(rest)
  {
    assert forall k :: 0 <= k < |rest| ==> rest[k] in Elements(rest);
  }

  lemma {:induction false} WithoutMeans(s: seq<u64>, x: u64)
    requires Distinct(s)
    ensures Distinct(Without(s, x)) && Elements(Without(s, x)) == Elements(s) - {x}
    ensures |Without(s, x)| <= |s|
    decreases |s|
  {
    if s != [] {
      DropFirst(s);
      WithoutMeans(s[1..], x);
      assert s == [s[0]] + s[1..];
      var rest := Without(s[1..], x);
      assert s[0] !in Elements(rest);
      if s[0] != x {
        assert Without(s, x) == [s[0]] + rest;
        DistinctCons(s[0], rest);
      } else {
        assert Without(s, x) == rest;
      }
    }
  }

  lemma ForgetSound(q: Queue, sequence: u64)
    requires Sound(q)
    ensures Sound(Forgotten(q, sequence))
  {
    WithoutMeans(q.seenOrder, sequence);
  }

  lemma PruneSound(q: Queue, now: u64)
    requires Sound(q)
    ensures Sound(Pruned(q, now))
  {
    BytesUnexpired(q.distress, now);
    BytesUnexpired(q.routine, now);
  }

  // ---- the queue itself ----

  class RadioQueue {
    var distress: seq<OutgoingFrame>
    var routine: seq<OutgoingFrame>
    var seen: set<u64>
    var seenOrder: seq<u64>
    const maxItems: nat
    const maxBytes: nat
    var queuedBytes: nat
    var streak: byte

    function Model(): Queue
      reads this
    {
      Queue(distress, routine, seen, seenOrder, maxItems, maxBytes, queuedBytes, streak)
    }

    predicate Valid()
      reads this
    {
      Sound(Model())
    }

    constructor WithCapacity(maxItems: nat, maxBytes: nat)
      ensures Valid() && Model() == Empty(maxItems, maxBytes)
    {
      this.maxItems, this.maxBytes := maxItems, maxBytes;
      distress, routine, seen, seenOrder, queuedBytes, streak := [], [], {}, [], 0, 0;
    }

    method Remember(sequence: u64)
      requires Valid() && sequence !in seen
      modifies this`seen, this`seenOrder
      ensures Valid() && Model() == Remembered(old(Model()), sequence)
    {
      RememberedSound(Model(), sequence);
      seen := seen + {sequence};
      seenOrder := seenOrder + [sequence];
      ghost var order, all := seenOrder, seen;
      while |seenOrder| > MAX_DEDUP_ENTRIES
        invariant |seenOrder| <= MAX_DEDUP_ENTRIES + 1
        invariant |order| <= MAX_DEDUP_ENTRIES ==> seenOrder == order
        invariant if |seenOrder| == |order| then seenOrder == order && seen == all
                  else seenOrder == order[1..] && seen == all - {order[0]}
      {
        seen := seen - {seenOrder[0]};
        seenOrder := seenOrder[1..];
      }
    }

    method Offer(frame: OutgoingFrame, priority: Priority) returns (r: Result<(), QueueError>)
      requires Valid()
      modifies this
      ensures Valid() && (Model(), r) == Offered(old(Model()), frame, priority)
    {
      OfferSound(Model(), frame, priority);
      if frame.sequence in seen {
        return Err(Duplicate);
      }
      if |distress| + |routine| >= maxItems || queuedBytes + |frame.bytes| > maxBytes {
        return Err(Full);
      }
      Remember(frame.sequence);
      queuedBytes := queuedBytes + |frame.bytes|;
      if priority == Distress {
        distress := distress + [frame];
      } else {
        routine := routine + [frame];
      }
      return Ok(());
    }

    method Forget(sequence: u64)
      requires Valid()
      modifies this`seen, this`seenOrder
      ensures Valid() && Model() == Forgotten(old(Model()), sequence)
    {
      ForgetSound(Model(), sequence);
      if sequence in seen {
        seen := seen - {sequence};
        seenOrder := Without(seenOrder, sequence);
      }
    }

    method TakeNext() returns (r: Option<OutgoingFrame>)
      requires Valid()
      modifies this`distress, this`routine, this`queuedBytes, this`streak
      ensures Valid() && (Model(), r) == Taken(old(Model()))
    {
      TakeSound(Model());
      var takeRoutine := distress == [] || streak >= DISTRESS_BURST;
      var frame: OutgoingFrame;
      if takeRoutine && routine != [] {
        streak := 0;
        frame := routine[0];
        routine := routine[1..];
      } else if distress != [] {
        frame := distress[0];
        distress := distress[1..];
        streak := Min(streak + 1, 255);
      } else {
        return None;
      }
      queuedBytes := Max(queuedBytes - |frame.bytes|, 0);
      return Some(frame);
    }

    method DropExpired(now: u64)
      requires Valid()
      modifies this`distress, this`routine, this`queuedBytes
      ensures Valid() && Model() == Pruned(old(Model()), now)
    {
      PruneSound(Model(), now);
      distress := Unexpired(distress, now);
      routine := Unexpired(routine, now);
      queuedBytes := Size(distress) + Size(routine);
    }
  }
}
