/** Rewriting the log from the live state: the records compaction writes, and
    that they replay to the state they were written from. */
module Compaction {
  import opened Basics
  import opened Postcard
  import opened Journal

  /** The order each collection is walked in. Any order will do: nothing below
      depends on which. */
  datatype Orders = Orders(
    senders: seq<u16>, keys: seq<text>, sequences: seq<u64>, authors: seq<text>)

  ghost predicate Lists<T(!new)>(order: seq<T>, s: set<T>) {
    forall x :: x in order <==> x in s
  }

  ghost predicate Walks(orders: Orders, st: State) {
    Lists(orders.senders, st.seen.Keys) && Lists(orders.keys, st.locks)
    && Lists(orders.sequences, st.pending.Keys) && Lists(orders.authors, st.witnessed.Keys)
  }

  function EpochRecords(st: State): seq<Entry> {
    match st.epoch
    case None => []
    case Some(epoch) => [Epoch(epoch)]
  }

  function SeenRecords(seen: map<u16, u64>, order: seq<u16>): seq<Entry>
    requires forall k :: k in order ==> k in seen
  {
    if order == [] then [] else [Seen(order[0], seen[order[0]])] + SeenRecords(seen, order[1..])
  }

  function LockRecords(order: seq<text>): seq<Entry> {
    if order == [] then [] else [Lock(order[0])] + LockRecords(order[1..])
  }

  function FrameRecords(pending: map<u64, OutgoingFrame>, order: seq<u64>): seq<Entry>
    requires forall s :: s in order ==> s in pending
  {
    if order == [] then []
    else
      var frame := pending[order[0]];
      [Frame(frame.sequence, frame.bytes, frame.expiresAt)] + FrameRecords(pending, order[1..])
  }

  function WitnessedRecords(witnessed: map<text, seq<byte>>, order: seq<text>): seq<Entry>
    requires forall a :: a in order ==> a in witnessed
  {
    if order == [] then []
    else [Witnessed(order[0], witnessed[order[0]])] + WitnessedRecords(witnessed, order[1..])
  }

  /** The epoch before what was seen under it; every lock before any frame. */
  function Head(st: State, orders: Orders): seq<Entry>
    requires Walks(orders, st)
  {
    [Sequence(st.nextSequence)] + EpochRecords(st) + SeenRecords(st.seen, orders.senders)
    + LockRecords(orders.keys)
  }

  function Tail(st: State, orders: Orders): seq<Entry>
    requires Walks(orders, st)
  {
    FrameRecords(st.pending, orders.sequences) + WitnessedRecords(st.witnessed, orders.authors)
  }

  function Snapshot(st: State, orders: Orders): seq<Entry>
    requires Walks(orders, st)
  {
    Head(st, orders) + Tail(st, orders)
  }

  // ---- each part replays to its part of the state ----

  lemma {:induction false} ReplaySeen(st: State, seen: map<u16, u64>, order: seq<u16>)
    requires forall k :: k in order ==> k in seen
    requires forall k :: k in st.seen ==> k in seen && st.seen[k] == seen[k]
    ensures var after := ApplyAll(st, SeenRecords(seen, order));
            after == st.(seen := after.seen)
            && (forall k :: k in after.seen <==> k in st.seen || k in order)
            && (forall k :: k in after.seen ==> k in seen && after.seen[k] == seen[k])
    decreases |order|
  {
    if order != [] {
      var k := order[0];
      var next := Apply(st, Seen(k, seen[k]));
      assert next == st.(seen := st.seen[k := seen[k]]);
      assert SeenRecords(seen, order)[1..] == SeenRecords(seen, order[1..]);
      ReplaySeen(next, seen, order[1..]);
    }
  }

  lemma {:induction false} ReplayLocks(st: State, order: seq<text>)
    ensures ApplyAll(st, LockRecords(order)) == st.(locks := st.locks + set k | k in order)
    decreases |order|
  {
    if order == [] {
      assert st.locks + (set k | k in order) == st.locks;
    } else {
      var next := Apply(st, Lock(order[0]));
      assert LockRecords(order)[1..] == LockRecords(order[1..]);
      ReplayLocks(next, order[1..]);
      assert next.locks + (set k | k in order[1..]) == st.locks + set k | k in order;
    }
  }

  lemma {:induction false} ReplayFrames(
    st: State, pending: map<u64, OutgoingFrame>, order: seq<u64>)
    requires forall s :: s in order ==> s in pending
    requires forall s :: s in pending ==>
      pending[s].sequence == s && SaturatingAdd(s, 1) <= st.nextSequence
    requires forall s :: s in st.pending ==> s in pending && st.pending[s] == pending[s]
    ensures var after := ApplyAll(st, FrameRecords(pending, order));
            after == st.(pending := after.pending)
            && (forall s :: s in after.pending <==> s in st.pending || s in order)
            && (forall s :: s in after.pending ==>
                 s in pending && after.pending[s] == pending[s])
    decreases |order|
  {
    if order != [] {
      var s := order[0];
      var next := st.(pending := st.pending[s := pending[s]]);
      assert Apply(st, FrameRecords(pending, order)[0]) == next;
      assert FrameRecords(pending, order)[1..] == FrameRecords(pending, order[1..]);
      ReplayFrames(next, pending, order[1..]);
    }
  }

  lemma {:induction false} ReplayWitnessed(
    st: State, witnessed: map<text, seq<byte>>, order: seq<text>)
    requires forall a :: a in order ==> a in witnessed
    requires forall a :: a in st.witnessed ==>
      a in witnessed && st.witnessed[a] == witnessed[a]
    ensures var after := ApplyAll(st, WitnessedRecords(witnessed, order));
            after == st.(witnessed := after.witnessed)
            && (forall a :: a in after.witnessed <==> a in st.witnessed || a in order)
            && (forall a :: a in after.witnessed ==>
                 a in witnessed && after.witnessed[a] == witnessed[a])
    decreases |order|
  {
    if order != [] {
      var a := order[0];
      var next := Apply(st, Witnessed(a, witnessed[a]));
      assert WitnessedRecords(witnessed, order)[1..] == WitnessedRecords(witnessed, order[1..]);
      ReplayWitnessed(next, witnessed, order[1..]);
    }
  }

  lemma ReplayHead(st: State, orders: Orders)
    requires Walks(orders, st)
    ensures ApplyAll(EMPTY, Head(st, orders)) == st.(pending := map[], witnessed := map[])
  {
    var a, b := [Sequence(st.nextSequence)], EpochRecords(st);
    var c, d := SeenRecords(st.seen, orders.senders), LockRecords(orders.keys);
    ApplyAllSplit(EMPTY, a + b + c, d);
    ApplyAllSplit(EMPTY, a + b, c);
    ApplyAllSplit(EMPTY, a, b);
    var counted := Apply(EMPTY, Sequence(st.nextSequence));
    assert ApplyAll(EMPTY, a) == counted;
    var dated := counted.(epoch := st.epoch);
    assert ApplyAll(counted, b) == dated;
    ReplaySeen(dated, st.seen, orders.senders);
    var heard := ApplyAll(dated, c);
    assert heard.seen == st.seen;
    ReplayLocks(heard, orders.keys);
    assert {} + (set k | k in orders.keys) == st.locks;
  }

  lemma ReplayTail(start: State, st: State, orders: Orders)
    requires Walks(orders, st) && Coherent(st)
    requires start == st.(pending := map[], witnessed := map[])
    ensures ApplyAll(start, Tail(st, orders)) == st
  {
    var e := FrameRecords(st.pending, orders.sequences);
    ApplyAllSplit(start, e, WitnessedRecords(st.witnessed, orders.authors));
    ReplayFrames(start, st.pending, orders.sequences);
    var queued := ApplyAll(start, e);
    assert queued.pending == st.pending;
    ReplayWitnessed(queued, st.witnessed, orders.authors);
    var after := ApplyAll(queued, WitnessedRecords(st.witnessed, orders.authors));
    assert after.witnessed == st.witnessed;
  }

  /** Compaction forgets nothing: its records replay to the very state they
      were written from, in whatever order each collection was walked. */
  lemma SnapshotReplays(st: State, orders: Orders)
    requires Walks(orders, st) && Coherent(st)
    ensures ApplyAll(EMPTY, Snapshot(st, orders)) == st
  {
    ApplyAllSplit(EMPTY, Head(st, orders), Tail(st, orders));
    ReplayHead(st, orders);
    ReplayTail(st.(pending := map[], witnessed := map[]), st, orders);
  }

  // ---- a frame is never without its lock ----

  /** The frames committed so far, each with the lock it was committed under. */
  function Votes(entries: seq<Entry>): set<(OutgoingFrame, text)> {
    set e | e in entries && e.Vote? :: (OutgoingFrame(e.bytes, e.sequence, e.expiresAt), e.key)
  }

  ghost predicate LockedBy(st: State, votes: set<(OutgoingFrame, text)>) {
    forall s :: s in st.pending ==> exists key :: (st.pending[s], key) in votes && key in st.locks
  }

  lemma ApplyLocked(st: State, e: Entry, votes: set<(OutgoingFrame, text)>)
    requires LockedBy(st, votes) && !e.Frame?
    requires e.Vote? ==> (OutgoingFrame(e.bytes, e.sequence, e.expiresAt), e.key) in votes
    ensures LockedBy(Apply(st, e), votes)
  {
    var after := Apply(st, e);
    forall s | s in after.pending
      ensures exists key :: (after.pending[s], key) in votes && key in after.locks
    {
      if e.Vote? && s == e.sequence {
        assert (after.pending[s], e.key) in votes;
      } else {
        var key :| (st.pending[s], key) in votes && key in st.locks;
        assert after.pending[s] == st.pending[s];
      }
    }
  }

  lemma {:induction false} ApplyAllLocked(
    st: State, entries: seq<Entry>, votes: set<(OutgoingFrame, text)>)
    requires LockedBy(st, votes) && Votes(entries) <= votes
    requires forall i :: 0 <= i < |entries| ==> !entries[i].Frame?
    ensures LockedBy(ApplyAll(st, entries), votes)
    decreases |entries|
  {
    if entries != [] {
      var e := entries[0];
      assert e in entries;
      ApplyLocked(st, e, votes);
      ApplyAllLocked(Apply(st, e), entries[1..], votes);
    }
  }

  lemma {:induction false} NoPending(st: State, entries: seq<Entry>)
    requires st.pending == map[]
    requires forall i :: 0 <= i < |entries| ==> !entries[i].Frame? && !entries[i].Vote?
    ensures ApplyAll(st, entries).pending == map[]
    decreases |entries|
  {
    if entries != [] {
      NoPending(Apply(st, entries[0]), entries[1..]);
    }
  }

  lemma HeadHasNoFrames(st: State, orders: Orders)
    requires Walks(orders, st)
    ensures forall i :: 0 <= i < |Head(st, orders)| ==>
      !Head(st, orders)[i].Frame? && !Head(st, orders)[i].Vote?
  {
    SeenOnly(st.seen, orders.senders);
    LocksOnly(orders.keys);
    forall e | e in Head(st, orders)
      ensures !e.Frame? && !e.Vote?
    {
      assert e in [Sequence(st.nextSequence)] || e in EpochRecords(st)
          || e in SeenRecords(st.seen, orders.senders) || e in LockRecords(orders.keys);
    }
  }

  lemma {:induction false} SeenOnly(seen: map<u16, u64>, order: seq<u16>)
    requires forall k :: k in order ==> k in seen
    ensures forall e :: e in SeenRecords(seen, order) ==> e.Seen?
  {
    if order != [] {
      SeenOnly(seen, order[1..]);
    }
  }

  lemma {:induction false} LocksOnly(order: seq<text>)
    ensures forall e :: e in LockRecords(order) ==> e.Lock?
  {
    if order != [] {
      LocksOnly(order[1..]);
    }
  }

  lemma {:induction false} TailPending(st: State, tail: seq<Entry>, votes: set<(OutgoingFrame, text)>,
    pending: map<u64, OutgoingFrame>)
    requires LockedBy(st, votes)
    requires forall s :: s in pending ==>
      exists key :: (pending[s], key) in votes && key in st.locks
    requires forall i :: 0 <= i < |tail| ==>
      tail[i].Witnessed?
      || (tail[i].Frame? && tail[i].sequence in pending
          && pending[tail[i].sequence]
             == OutgoingFrame(tail[i].bytes, tail[i].sequence, tail[i].expiresAt))
    ensures LockedBy(ApplyAll(st, tail), votes)
    decreases |tail|
  {
    if tail != [] {
      var e := tail[0];
      var next := Apply(st, e);
      assert next.locks == st.locks;
      forall s | s in next.pending
        ensures exists key :: (next.pending[s], key) in votes && key in next.locks
      {
        if e.Frame? && s == e.sequence {
          assert next.pending[s] == pending[s];
        } else {
          assert next.pending[s] == st.pending[s];
        }
      }
      TailPending(next, tail[1..], votes, pending);
    }
  }

  lemma {:induction false} FramesMatch(pending: map<u64, OutgoingFrame>, order: seq<u64>)
    requires forall s :: s in order ==> s in pending
    requires forall s :: s in pending ==> pending[s].sequence == s
    ensures forall i :: 0 <= i < |FrameRecords(pending, order)| ==>
      var e := FrameRecords(pending, order)[i];
      e.Frame? && e.sequence in pending
      && pending[e.sequence] == OutgoingFrame(e.bytes, e.sequence, e.expiresAt)
  {
    if order != [] {
      FramesMatch(pending, order[1..]);
    }
  }

  lemma {:induction false} WitnessedOnly(witnessed: map<text, seq<byte>>, order: seq<text>)
    requires forall a :: a in order ==> a in witnessed
    ensures forall i :: 0 <= i < |WitnessedRecords(witnessed, order)| ==>
      WitnessedRecords(witnessed, order)[i].Witnessed?
  {
    if order != [] {
      WitnessedOnly(witnessed, order[1..]);
    }
  }

  /** However a compacted log is cut, no frame comes back without the lock it
      was committed under. */
  lemma CutSnapshotStaysLocked(
    st: State, orders: Orders, votes: set<(OutgoingFrame, text)>, k: nat)
    requires Walks(orders, st) && Coherent(st) && LockedBy(st, votes)
    requires k <= |Snapshot(st, orders)|
    ensures LockedBy(ApplyAll(EMPTY, Snapshot(st, orders)[..k]), votes)
  {
    var head, tail := Head(st, orders), Tail(st, orders);
    HeadHasNoFrames(st, orders);
    if k <= |head| {
      assert Snapshot(st, orders)[..k] == head[..k];
      NoPending(EMPTY, head[..k]);
    } else {
      var cut := tail[..k - |head|];
      assert Snapshot(st, orders)[..k] == head + cut;
      ApplyAllSplit(EMPTY, head, cut);
      ReplayHead(st, orders);
      FramesMatch(st.pending, orders.sequences);
      WitnessedOnly(st.witnessed, orders.authors);
      TailPending(st.(pending := map[], witnessed := map[]), cut, votes, st.pending);
    }
  }

  /** The same for a log that was compacted at some point and appended to
      since, cut anywhere. */
  lemma CutLogStaysLocked(history: seq<Entry>, orders: Orders, later: seq<Entry>, k: nat)
    requires forall i :: 0 <= i < |history| ==> !history[i].Frame?
    requires forall i :: 0 <= i < |later| ==> !later[i].Frame?
    requires Walks(orders, ApplyAll(EMPTY, history))
    requires k <= |Snapshot(ApplyAll(EMPTY, history), orders) + later|
    ensures LockedBy(
      ApplyAll(EMPTY, (Snapshot(ApplyAll(EMPTY, history), orders) + later)[..k]),
      Votes(history + later))
  {
    var st := ApplyAll(EMPTY, history);
    var votes := Votes(history + later);
    var snapshot := Snapshot(st, orders);
    ApplyAllCoherent(EMPTY, history);
    ApplyAllLocked(EMPTY, history, votes);
    if k <= |snapshot| {
      assert (snapshot + later)[..k] == snapshot[..k];
      CutSnapshotStaysLocked(st, orders, votes, k);
    } else {
      var cut := later[..k - |snapshot|];
      assert (snapshot + later)[..k] == snapshot + cut;
      ApplyAllSplit(EMPTY, snapshot, cut);
      SnapshotReplays(st, orders);
      ApplyAllLocked(st, cut, votes);
    }
  }
}
