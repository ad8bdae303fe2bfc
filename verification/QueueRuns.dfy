/** Whole runs of the radio queue: how long a frame can wait, in what order
    frames leave, and that none is lost or made up. */
module QueueRuns {
  import opened Basics
  import opened Journal
  import opened RadioQueue

  datatype Event =
    | Offer(frame: OutgoingFrame, priority: Priority)
    | Take
    | Forget(sequence: u64)
    | Expire(now: u64)

  function Step(q: Queue, e: Event): Queue {
    match e
    case Offer(frame, priority) => Offered(q, frame, priority).0
    case Take => Taken(q).0
    case Forget(sequence) => Forgotten(q, sequence)
    case Expire(now) => Pruned(q, now)
  }

  /** The state after the first `i` events, whatever an event does. */
  function After<S, E>(step: (S, E) -> S, s: S, events: seq<E>, i: nat): S
    requires i <= |events|
  {
    if i == 0 then s else step(After(step, s, events, i - 1), events[i - 1])
  }

  /** The queue after the first `i` events. */
  function At(q: Queue, events: seq<Event>, i: nat): Queue
    requires i <= |events|
  {
    After(Step, q, events, i)
  }

  /** From an empty queue, every run keeps the counts and caps exact. */
  lemma {:induction false} RunSound(q: Queue, events: seq<Event>, i: nat)
    requires Sound(q) && i <= |events|
    ensures Sound(At(q, events, i))
  {
    if i > 0 {
      RunSound(q, events, i - 1);
      var before := At(q, events, i - 1);
      match events[i - 1]
      case Offer(frame, priority) => OfferSound(before, frame, priority);
      case Take => TakeSound(before);
      case Forget(sequence) => ForgetSound(before, sequence);
      case Expire(now) => PruneSound(before, now);
    }
  }

  // ---- how long a routine frame can wait ----

  function Takes(events: seq<Event>, i: nat): nat
    requires i <= |events|
  {
    if i == 0 then 0 else Takes(events, i - 1) + if events[i - 1].Take? then 1 else 0
  }

  /** The most takes before the routine frame at position `k` has left. */
  function Bound(streak: nat, k: nat): nat {
    DISTRESS_BURST - Min(streak, DISTRESS_BURST) + 1 + (DISTRESS_BURST + 1) * k
  }

  /** The routine frame at position `k` did not leave at this event, and is now at
      `l`. */
  predicate Moves(q: Queue, e: Event, k: nat, l: nat) {
    k < |q.routine| && l < |Step(q, e).routine|
    && Step(q, e).routine[l] == q.routine[k]
  }

  lemma {:induction false} UnexpiredKeeps(frames: seq<OutgoingFrame>, now: u64, k: nat) returns (l: nat)
    requires k < |frames| && !Expired(frames[k], now)
    ensures l <= k && l < |Unexpired(frames, now)| && Unexpired(frames, now)[l] == frames[k]
    decreases |frames|
  {
    var last := |frames| - 1;
    if k < last {
      l := UnexpiredKeeps(frames[..last], now, k);
    } else {
      l := |Unexpired(frames[..last], now)|;
    }
  }

  /** One event either sends the frame, or leaves it waiting no longer than
      before; a take brings it one closer. */
  lemma OneEvent(q: Queue, e: Event, k: nat) returns (l: nat)
    requires k < |q.routine|
    requires e.Expire? ==> !Expired(q.routine[k], e.now)
    requires !(e.Take? && Taken(q).1 == Some(q.routine[k]))
    ensures Moves(q, e, k, l)
    ensures Bound(Step(q, e).streak, l) + (if e.Take? then 1 else 0) <= Bound(q.streak, k)
  {
    match e
    case Offer(frame, priority) => l := k;
    case Forget(sequence) => l := k;
    case Expire(now) => l := UnexpiredKeeps(q.routine, now, k);
    case Take =>
      if NextLane(q) == Some(Routine) {
        l := k - 1;
        Closer(q.streak, k);
      } else {
        l := k;
      }
  }

  lemma Closer(streak: nat, k: nat)
    requires k > 0
    ensures Bound(0, k - 1) + 1 <= Bound(streak, k)
  {
    assert (DISTRESS_BURST + 1) * k == (DISTRESS_BURST + 1) * (k - 1) + DISTRESS_BURST + 1;
  }

  /** Whatever is offered, taken, forgotten or dropped meanwhile: unless it
      expires, the routine frame at position `k` leaves within
      `(8 - min(streak, 8)) + 1 + 9k` takes. */
  lemma {:induction false} RoutineLeavesInTime(q: Queue, events: seq<Event>, k: nat) returns (i: nat)
    requires k < |q.routine|
    requires forall j :: 0 <= j < |events| && events[j].Expire? ==> !Expired(q.routine[k], events[j].now)
    requires Takes(events, |events|) >= Bound(q.streak, k)
    ensures i < |events| && events[i].Take?
    ensures Taken(At(q, events, i)).1 == Some(q.routine[k])
    ensures Takes(events, i + 1) <= Bound(q.streak, k)
    decreases |events|
  {
    assert |events| > 0;
    if events[0].Take? && Taken(q).1 == Some(q.routine[k]) {
      i := 0;
      assert At(q, events, 0) == q;
      assert Takes(events, 1) == 1;
    } else {
      var l := OneEvent(q, events[0], k);
      TakesSplit(events, |events|);
      i := RoutineLeavesInTime(Step(q, events[0]), events[1..], l);
      Later(q, events, i);
      i := i + 1;
    }
  }

  lemma Later(q: Queue, events: seq<Event>, i: nat)
    requires i + 1 < |events|
    ensures events[i + 1] == events[1..][i]
    ensures At(q, events, i + 1) == At(Step(q, events[0]), events[1..], i)
    ensures Takes(events, i + 2) == (if events[0].Take? then 1 else 0) + Takes(events[1..], i + 1)
  {
    AtSplit(q, events, i + 1);
    TakesSplit(events, i + 2);
  }

  lemma {:induction false} TakesSplit(events: seq<Event>, i: nat)
    requires 1 <= i <= |events|
    ensures Takes(events, i) == (if events[0].Take? then 1 else 0) + Takes(events[1..], i - 1)
  {
    if i > 1 {
      TakesSplit(events, i - 1);
    }
  }

  lemma {:induction false} AfterSplit<S, E>(step: (S, E) -> S, s: S, events: seq<E>, i: nat)
    requires 1 <= i <= |events|
    ensures After(step, s, events, i) == After(step, step(s, events[0]), events[1..], i - 1)
  {
    if i > 1 {
      AfterSplit(step, s, events, i - 1);
    }
  }

  lemma AtSplit(q: Queue, events: seq<Event>, i: nat)
    requires 1 <= i <= |events|
    ensures At(q, events, i) == At(Step(q, events[0]), events[1..], i - 1)
  {
    AfterSplit(Step, q, events, i);
  }

  // ---- the bound is exact ----

  function TakeMany(q: Queue, n: nat): Queue
    decreases n
  {
    if n == 0 then q else TakeMany(Taken(q).0, n - 1)
  }

  /** With enough distress frames waiting, the routine frame at position `k`
      leaves at exactly the last take the bound allows. */
  lemma {:induction false} BoundIsExact(q: Queue, k: nat)
    requires k < |q.routine|
    requires |q.distress| >= Bound(q.streak, k) - (k + 1)
    ensures Taken(TakeMany(q, Bound(q.streak, k) - 1)).1 == Some(q.routine[k])
    decreases Bound(q.streak, k)
  {
    var after := Taken(q).0;
    if q.streak < DISTRESS_BURST {
      assert q.distress != [];
      assert Bound(after.streak, k) == Bound(q.streak, k) - 1;
      BoundIsExact(after, k);
    } else if k > 0 {
      Closer(q.streak, k);
      assert Bound(after.streak, k - 1) == Bound(q.streak, k) - 1;
      BoundIsExact(after, k - 1);
    }
  }

  // ---- order and conservation ----

  type frames = seq<OutgoingFrame>

  /** What an event adds to a lane, sends from it and drops from it. */
  function Entered(q: Queue, e: Event, p: Priority): seq<OutgoingFrame> {
    if e.Offer? && e.priority == p && Offered(q, e.frame, p).1.Ok? then [e.frame] else []
  }

  function Sent(q: Queue, e: Event, p: Priority): seq<OutgoingFrame> {
    if e.Take? && NextLane(q) == Some(p) then [Lane(q, p)[0]] else []
  }

  function Expiring(frames: seq<OutgoingFrame>, now: u64): seq<OutgoingFrame> {
    if frames == [] then []
    else
      var last := |frames| - 1;
      Expiring(frames[..last], now) + if Expired(frames[last], now) then [frames[last]] else []
  }

  function Dropped(q: Queue, e: Event, p: Priority): seq<OutgoingFrame> {
    if e.Expire? then Expiring(Lane(q, p), e.now) else []
  }

  /** Something of every event so far, in order. */
  function All<S, E>(step: (S, E) -> S, what: (S, E) -> frames, s: S, events: seq<E>, i: nat): frames
    requires i <= |events|
  {
    if i == 0 then []
    else All(step, what, s, events, i - 1) + what(After(step, s, events, i - 1), events[i - 1])
  }

  function AllEntered(q: Queue, events: seq<Event>, p: Priority, i: nat): frames
    requires i <= |events|
  {
    All(Step, (at: Queue, e: Event) => Entered(at, e, p), q, events, i)
  }

  function AllSent(q: Queue, events: seq<Event>, p: Priority, i: nat): frames
    requires i <= |events|
  {
    All(Step, (at: Queue, e: Event) => Sent(at, e, p), q, events, i)
  }

  function AllDropped(q: Queue, events: seq<Event>, p: Priority, i: nat): frames
    requires i <= |events|
  {
    All(Step, (at: Queue, e: Event) => Dropped(at, e, p), q, events, i)
  }

  /** `a` is `b` with some frames left out, in the same order. */
  predicate Within(a: seq<OutgoingFrame>, b: seq<OutgoingFrame>)
    decreases |b|
  {
    a == []
    || (b != []
        && ((a[|a| - 1] == b[|b| - 1] && Within(a[..|a| - 1], b[..|b| - 1]))
            || Within(a, b[..|b| - 1])))
  }

  lemma {:induction false} WithinItself(a: seq<OutgoingFrame>)
    ensures Within(a, a)
  {
    if a != [] {
      WithinItself(a[..|a| - 1]);
    }
  }

  lemma {:induction false} WithinTransitive(
    a: seq<OutgoingFrame>, b: seq<OutgoingFrame>, c: seq<OutgoingFrame>)
    requires Within(a, b) && Within(b, c)
    ensures Within(a, c)
    decreases |b| + |c|
  {
    if a != [] && b != [] {
      var bf, cf := b[..|b| - 1], c[..|c| - 1];
      if b[|b| - 1] == c[|c| - 1] && Within(bf, cf) {
        if a[|a| - 1] == b[|b| - 1] && Within(a[..|a| - 1], bf) {
          WithinTransitive(a[..|a| - 1], bf, cf);
        } else {
          WithinTransitive(a, bf, cf);
        }
      } else {
        WithinTransitive(a, b, cf);
      }
    }
  }

  lemma WithinSnoc(a: seq<OutgoingFrame>, b: seq<OutgoingFrame>, f: OutgoingFrame)
    requires Within(a, b)
    ensures Within(a + [f], b + [f])
  {
    assert (a + [f])[..|a|] == a && (b + [f])[..|b|] == b;
  }

  lemma WithinLonger(a: seq<OutgoingFrame>, b: seq<OutgoingFrame>, f: OutgoingFrame)
    requires Within(a, b)
    ensures Within(a, b + [f])
  {
    assert (b + [f])[..|b|] == b;
  }

  /** Pruning leaves the rest in order, after whatever came before. */
  lemma {:induction false} UnexpiredWithin(
    front: seq<OutgoingFrame>, frames: seq<OutgoingFrame>, now: u64)
    ensures Within(front + Unexpired(frames, now), front + frames)
    decreases |frames|
  {
    if frames == [] {
      WithinItself(front + frames);
    } else {
      var last := |frames| - 1;
      var f := frames[last];
      UnexpiredWithin(front, frames[..last], now);
      assert front + frames == (front + frames[..last]) + [f];
      if Expired(f, now) {
        assert Unexpired(frames, now) == Unexpired(frames[..last], now);
        WithinLonger(front + Unexpired(frames, now), front + frames[..last], f);
      } else {
        WithinSnoc(front + Unexpired(frames[..last], now), front + frames[..last], f);
        assert front + Unexpired(frames, now) == (front + Unexpired(frames[..last], now)) + [f];
      }
    }
  }

  /** What one event leaves of a lane. */
  lemma LaneAfter(q: Queue, e: Event, p: Priority)
    ensures e.Offer? ==> Lane(Step(q, e), p) == Lane(q, p) + Entered(q, e, p)
    ensures e.Take? ==> Sent(q, e, p) + Lane(Step(q, e), p) == Lane(q, p)
    ensures e.Forget? ==> Lane(Step(q, e), p) == Lane(q, p)
    ensures e.Expire? ==> Lane(Step(q, e), p) == Unexpired(Lane(q, p), e.now)
    ensures !e.Offer? ==> Entered(q, e, p) == []
    ensures !e.Take? ==> Sent(q, e, p) == []
    ensures !e.Expire? ==> Dropped(q, e, p) == []
  {
  }

  /** One event keeps what was sent and what waits in the order it was accepted. */
  lemma EventInOrder(q: Queue, e: Event, p: Priority, sent: seq<OutgoingFrame>, accepted: seq<OutgoingFrame>)
    requires Within(sent + Lane(q, p), accepted)
    ensures Within(sent + Sent(q, e, p) + Lane(Step(q, e), p), accepted + Entered(q, e, p))
  {
    LaneAfter(q, e, p);
    KeepsOrder(sent, Lane(q, p), accepted, e, Entered(q, e, p), Sent(q, e, p), Lane(Step(q, e), p));
  }

  lemma KeepsOrder(sent: seq<OutgoingFrame>, lane: seq<OutgoingFrame>, accepted: seq<OutgoingFrame>,
                   e: Event, entered: seq<OutgoingFrame>, leaves: seq<OutgoingFrame>,
                   after: seq<OutgoingFrame>)
    requires Within(sent + lane, accepted) && |entered| <= 1
    requires e.Offer? ==> after == lane + entered && leaves == []
    requires e.Take? ==> leaves + after == lane && entered == []
    requires e.Forget? ==> after == lane && leaves == entered == []
    requires e.Expire? ==> after == Unexpired(lane, e.now) && leaves == entered == []
    ensures Within(sent + leaves + after, accepted + entered)
  {
    Associative(sent, leaves, after);
    if e.Expire? {
      PruningKeepsOrder(sent, lane, accepted, e.now);
      assert leaves + after == after && accepted + entered == accepted;
    } else if entered == [] {
      assert leaves + after == lane && accepted + entered == accepted;
    } else {
      WithinSnoc(sent + lane, accepted, entered[0]);
      Associative(sent, lane, entered);
      assert leaves + after == lane + entered && entered == [entered[0]];
    }
  }

  lemma PruningKeepsOrder(
    sent: seq<OutgoingFrame>, lane: seq<OutgoingFrame>, accepted: seq<OutgoingFrame>, now: u64)
    requires Within(sent + lane, accepted)
    ensures Within(sent + Unexpired(lane, now), accepted)
  {
    UnexpiredWithin(sent, lane, now);
    WithinTransitive(sent + Unexpired(lane, now), sent + lane, accepted);
  }

  /** What one event must do for a lane to keep its order, whatever was sent and
      accepted before it. */
  ghost predicate Orderly(lane: frames, entered: frames, sent: frames, after: frames) {
    forall s, a ::
      Within(s + lane, a) ==> Within(s + sent + after, a + entered)
  }

  lemma {:induction false} InOrderBy<S, E>(
    step: (S, E) -> S, lane: S -> frames, enters: (S, E) -> frames, sends: (S, E) -> frames,
    s: S, events: seq<E>, i: nat)
    requires i <= |events|
    requires forall at, e :: Orderly(lane(at), enters(at, e), sends(at, e), lane(step(at, e)))
    ensures Within(All(step, sends, s, events, i) + lane(After(step, s, events, i)),
                   lane(s) + All(step, enters, s, events, i))
  {
    if i == 0 {
      assert [] + lane(s) == lane(s) == lane(s) + [];
      WithinItself(lane(s));
    } else {
      var at, e := After(step, s, events, i - 1), events[i - 1];
      InOrderBy(step, lane, enters, sends, s, events, i - 1);
      assert Orderly(lane(at), enters(at, e), sends(at, e), lane(step(at, e)));
      Associative(lane(s), All(step, enters, s, events, i - 1), enters(at, e));
    }
  }

  /** Each class leaves in the order it was accepted. */
  lemma FirstInFirstOut(q: Queue, events: seq<Event>, p: Priority, i: nat)
    requires i <= |events|
    ensures Within(AllSent(q, events, p, i) + Lane(At(q, events, i), p),
                   Lane(q, p) + AllEntered(q, events, p, i))
  {
    forall at, e
      ensures Orderly(Lane(at, p), Entered(at, e, p), Sent(at, e, p), Lane(Step(at, e), p))
    {
      EventIsOrderly(at, e, p);
    }
    InOrderBy(Step, (at: Queue) => Lane(at, p), (at: Queue, e: Event) => Entered(at, e, p),
              (at: Queue, e: Event) => Sent(at, e, p), q, events, i);
  }

  lemma EventIsOrderly(q: Queue, e: Event, p: Priority)
    ensures Orderly(Lane(q, p), Entered(q, e, p), Sent(q, e, p), Lane(Step(q, e), p))
  {
    forall s, a | Within(s + Lane(q, p), a)
      ensures Within(s + Sent(q, e, p) + Lane(Step(q, e), p), a + Entered(q, e, p))
    {
      EventInOrder(q, e, p, s, a);
    }
  }

  /** Of every frame: as many held first and accepted as sent, dropped and held
      last. */
  ghost predicate Balanced(first: frames, entered: frames, sent: frames, dropped: frames, last: frames) {
    forall f {:trigger multiset(first)[f]} ::
      multiset(first)[f] + multiset(entered)[f]
      == multiset(sent)[f] + multiset(dropped)[f] + multiset(last)[f]
  }

  lemma {:induction false} PruneConserves(held: frames, now: u64)
    ensures multiset(held) == multiset(Unexpired(held, now)) + multiset(Expiring(held, now))
  {
    if held != [] {
      var last := |held| - 1;
      PruneConserves(held[..last], now);
      assert held == held[..last] + [held[last]];
    }
  }

  lemma {:induction false} PruneSorts(held: frames, now: u64)
    ensures forall k :: 0 <= k < |Unexpired(held, now)| ==> !Expired(Unexpired(held, now)[k], now)
    ensures forall k :: 0 <= k < |Expiring(held, now)| ==> Expired(Expiring(held, now)[k], now)
  {
    if held != [] {
      PruneSorts(held[..|held| - 1], now);
    }
  }

  /** A sweep takes exactly the expired frames, however often each is held, and
      leaves the rest in their order. */
  lemma SweepTakesTheExpired(held: frames, now: u64, f: OutgoingFrame)
    ensures multiset(Unexpired(held, now))[f] == if Expired(f, now) then 0 else multiset(held)[f]
    ensures Within(Unexpired(held, now), held)
  {
    PruneConserves(held, now);
    PruneSorts(held, now);
    assert f in Unexpired(held, now) ==> !Expired(f, now);
    assert f in Expiring(held, now) ==> Expired(f, now);
    assert multiset(held)[f]
        == multiset(Unexpired(held, now))[f] + multiset(Expiring(held, now))[f];
    UnexpiredWithin([], held, now);
    assert [] + Unexpired(held, now) == Unexpired(held, now) && [] + held == held;
  }

  lemma EventConserves(q: Queue, e: Event, p: Priority)
    ensures Balanced(Lane(q, p), Entered(q, e, p), Sent(q, e, p), Dropped(q, e, p), Lane(Step(q, e), p))
  {
    LaneAfter(q, e, p);
    if e.Expire? {
      PruneConserves(Lane(q, p), e.now);
    } else if e.Take? {
      assert multiset(Sent(q, e, p) + Lane(Step(q, e), p)) == multiset(Lane(q, p));
    }
  }

  lemma Chain(a: frames, e: frames, s: frames, d: frames, b: frames, f: frames, t: frames, x: frames,
              c: frames)
    requires Balanced(a, e, s, d, b) && Balanced(b, f, t, x, c)
    ensures Balanced(a, e + f, s + t, d + x, c)
  {
    forall y
      ensures multiset(a)[y] + multiset(e + f)[y]
           == multiset(s + t)[y] + multiset(d + x)[y] + multiset(c)[y]
    {
      assert multiset(e + f)[y] == multiset(e)[y] + multiset(f)[y];
      assert multiset(s + t)[y] == multiset(s)[y] + multiset(t)[y];
      assert multiset(d + x)[y] == multiset(d)[y] + multiset(x)[y];
      assert multiset(b)[y] + multiset(f)[y] == multiset(t)[y] + multiset(x)[y] + multiset(c)[y];
    }
  }

  lemma {:induction false} BalancedBy<S, E>(
    step: (S, E) -> S, lane: S -> frames, enters: (S, E) -> frames, sends: (S, E) -> frames,
    drops: (S, E) -> frames, s: S, events: seq<E>, i: nat)
    requires i <= |events|
    requires forall at, e ::
      Balanced(lane(at), enters(at, e), sends(at, e), drops(at, e), lane(step(at, e)))
    ensures Balanced(lane(s), All(step, enters, s, events, i), All(step, sends, s, events, i),
                     All(step, drops, s, events, i), lane(After(step, s, events, i)))
  {
    if i > 0 {
      var at, e := After(step, s, events, i - 1), events[i - 1];
      BalancedBy(step, lane, enters, sends, drops, s, events, i - 1);
      assert Balanced(lane(at), enters(at, e), sends(at, e), drops(at, e), lane(step(at, e)));
      Chain(lane(s), All(step, enters, s, events, i - 1), All(step, sends, s, events, i - 1),
            All(step, drops, s, events, i - 1), lane(at), enters(at, e), sends(at, e), drops(at, e),
            lane(step(at, e)));
    }
  }

  /** Every frame accepted was sent, dropped as expired, or still waits, as many
      times as it was accepted; nothing else ever leaves. */
  lemma FramesConserved(q: Queue, events: seq<Event>, p: Priority, i: nat)
    requires i <= |events|
    ensures Balanced(Lane(q, p), AllEntered(q, events, p, i), AllSent(q, events, p, i),
                     AllDropped(q, events, p, i), Lane(At(q, events, i), p))
  {
    forall at, e
      ensures Balanced(Lane(at, p), Entered(at, e, p), Sent(at, e, p), Dropped(at, e, p),
                       Lane(Step(at, e), p))
    {
      EventConserves(at, e, p);
    }
    BalancedBy(Step, (at: Queue) => Lane(at, p), (at: Queue, e: Event) => Entered(at, e, p),
               (at: Queue, e: Event) => Sent(at, e, p), (at: Queue, e: Event) => Dropped(at, e, p),
               q, events, i);
  }


  // ---- what is taken ----

  /** A frame is taken exactly if its sequence is not remembered and there is room
      for it, in items and in bytes; it then waits last in its class, and is
      remembered. */
  lemma OfferedExactly(q: Queue, frame: OutgoingFrame, p: Priority)
    requires Sound(q)
    ensures var (after, r) := Offered(q, frame, p);
            (r.Ok? <==> frame.sequence !in q.seenOrder
                        && |q.distress| + |q.routine| < q.maxItems
                        && Size(q.distress) + Size(q.routine) + |frame.bytes| <= q.maxBytes)
            && (r == Err(Duplicate) <==> frame.sequence in q.seenOrder)
            && (r.Err? ==> after == q)
            && (r.Ok? ==> Lane(after, p) == Lane(q, p) + [frame]
                          && Lane(after, Other(p)) == Lane(q, Other(p))
                          && after.seenOrder == Latest(q.seenOrder + [frame.sequence])
                          && after.streak == q.streak)
  {
    RememberedIsLatest(q, frame.sequence);
  }

  function Other(p: Priority): Priority {
    if p == Distress then Routine else Distress
  }

  /** The last 1024 of them. */
  function Latest(order: seq<u64>): seq<u64> {
    if |order| > MAX_DEDUP_ENTRIES then order[|order| - MAX_DEDUP_ENTRIES..] else order
  }

  lemma RememberedIsLatest(q: Queue, sequence: u64)
    requires Sound(q)
    ensures Remembered(q, sequence).seenOrder == Latest(q.seenOrder + [sequence])
  {
  }

  /** A sequence that was taken is refused when offered again. */
  lemma RepeatIsRefused(q: Queue, frame: OutgoingFrame, p: Priority, again: OutgoingFrame, o: Priority)
    requires Sound(q) && Offered(q, frame, p).1 == Ok(()) && again.sequence == frame.sequence
    ensures Offered(Offered(q, frame, p).0, again, o) == (Offered(q, frame, p).0, Err(Duplicate))
  {
    var order := Offered(q, frame, p).0.seenOrder;
    RememberedIsLatest(q, frame.sequence);
    assert order[|order| - 1] == frame.sequence;
    OfferSound(q, frame, p);
  }

  /** A sequence that is forgotten may be offered again; every other one that was
      remembered still is, and what waits is left alone. */
  lemma ForgottenExactly(q: Queue, sequence: u64, frame: OutgoingFrame, p: Priority)
    requires Sound(q)
    ensures var after := Forgotten(q, sequence);
            after == q.(seen := after.seen, seenOrder := after.seenOrder)
            && (Offered(after, frame, p).1 == Err(Duplicate)
                <==> frame.sequence in q.seenOrder && frame.sequence != sequence)
  {
    if sequence in q.seen {
      WithoutMeans(q.seenOrder, sequence);
    }
    assert frame.sequence in q.seen <==> frame.sequence in q.seenOrder;
  }

  /** A new queue is sound, has nothing to give and nothing to refuse as a repeat, and
      has not begun a burst. */
  lemma NewIsSound(maxItems: nat, maxBytes: nat, frame: OutgoingFrame, p: Priority)
    ensures Sound(Empty(maxItems, maxBytes)) && Taken(Empty(maxItems, maxBytes)).1 == None
    ensures Offered(Empty(maxItems, maxBytes), frame, p).1
         == if maxItems > 0 && |frame.bytes| <= maxBytes then Ok(()) else Err(Full)
    ensures Empty(maxItems, maxBytes).streak == 0
  {
  }

  // ---- frames of other members ----

  const SEQUENCE_SPAN: nat := 0x1_0000_0000_0000

  /** The identity a carried frame has in the queue: its author above the low
      forty-eight bits of its sequence. */
  function ForwardKey(author: u16, sequence: u64): u64 {
    author * SEQUENCE_SPAN + sequence % SEQUENCE_SPAN
  }

  /** Two carried frames have one identity exactly if they have one author and their
      sequences are whole multiples of 2^48 apart; so a frame is taken for another
      member's never, and for another of the same member's only that far off. */
  lemma OneIdentityExactly(a: u16, s: u64, b: u16, t: u64)
    ensures ForwardKey(a, s) == ForwardKey(b, t) <==> a == b && (s as int - t) % SEQUENCE_SPAN == 0
  {
  }
}
