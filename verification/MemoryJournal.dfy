/** The journal held in memory, and what a restart restores it from. */
module MemoryJournal {
  import opened Basics
  import opened Postcard
  import opened Contracts
  import opened Journal
  import opened Compaction
  import LockKey

  /** A restorable view, each collection in some order. */
  datatype JournalSnapshot = JournalSnapshot(
    epoch: Option<u16>, seen: seq<(u16, u64)>, voteLocks: seq<text>,
    pending: seq<OutgoingFrame>, nextSequence: u64, witnessed: seq<(text, seq<byte>)>)

  // ---- collecting back into maps ----

  function CollectPairs<K, V>(pairs: seq<(K, V)>): map<K, V> {
    if pairs == [] then map[]
    else CollectPairs(pairs[..|pairs| - 1])[pairs[|pairs| - 1].0 := pairs[|pairs| - 1].1]
  }

  function CollectFrames(frames: seq<OutgoingFrame>): map<u64, OutgoingFrame> {
    if frames == [] then map[]
    else CollectFrames(frames[..|frames| - 1])[frames[|frames| - 1].sequence := frames[|frames| - 1]]
  }

  function Restored(s: JournalSnapshot): State {
    State(s.epoch, CollectPairs(s.seen), (set k | k in s.voteLocks), CollectFrames(s.pending),
          s.nextSequence, CollectPairs(s.witnessed))
  }

  lemma {:induction false} CollectPairsOf<K, V>(m: map<K, V>, pairs: seq<(K, V)>)
    requires forall i :: 0 <= i < |pairs| ==> pairs[i].0 in m && m[pairs[i].0] == pairs[i].1
    ensures forall k :: k in CollectPairs(pairs) ==> k in m && CollectPairs(pairs)[k] == m[k]
    ensures forall i :: 0 <= i < |pairs| ==> pairs[i].0 in CollectPairs(pairs)
  {
    if pairs != [] {
      CollectPairsOf(m, pairs[..|pairs| - 1]);
    }
  }

  lemma {:induction false} CollectFramesOf(m: map<u64, OutgoingFrame>, frames: seq<OutgoingFrame>)
    requires forall i :: 0 <= i < |frames| ==>
      frames[i].sequence in m && m[frames[i].sequence] == frames[i]
    ensures forall k :: k in CollectFrames(frames) ==> k in m && CollectFrames(frames)[k] == m[k]
    ensures forall i :: 0 <= i < |frames| ==> frames[i].sequence in CollectFrames(frames)
  {
    if frames != [] {
      CollectFramesOf(m, frames[..|frames| - 1]);
    }
  }

  /** What `snapshot` collects, whatever order each collection is walked in. */
  function SnapshotOf(st: State, orders: Orders): JournalSnapshot
    requires Walks(orders, st)
  {
    JournalSnapshot(
      st.epoch,
      seq(|orders.senders|, i requires 0 <= i < |orders.senders| =>
        assert orders.senders[i] in orders.senders;
        (orders.senders[i], st.seen[orders.senders[i]])),
      orders.keys,
      seq(|orders.sequences|, i requires 0 <= i < |orders.sequences| =>
        assert orders.sequences[i] in orders.sequences;
        st.pending[orders.sequences[i]]),
      st.nextSequence,
      seq(|orders.authors|, i requires 0 <= i < |orders.authors| =>
        assert orders.authors[i] in orders.authors;
        (orders.authors[i], st.witnessed[orders.authors[i]])))
  }

  /** A restart from a snapshot resumes exactly where the journal stood. */
  lemma RestoredSnapshot(st: State, orders: Orders)
    requires Walks(orders, st) && Coherent(st)
    ensures Restored(SnapshotOf(st, orders)) == st
  {
    var s := SnapshotOf(st, orders);
    CollectPairsOf(st.seen, s.seen);
    CollectFramesOf(st.pending, s.pending);
    CollectPairsOf(st.witnessed, s.witnessed);
    forall k | k in st.seen
      ensures k in CollectPairs(s.seen)
    {
      var i :| 0 <= i < |orders.senders| && orders.senders[i] == k;
      assert s.seen[i].0 == k;
    }
    forall k | k in st.pending
      ensures k in CollectFrames(s.pending)
    {
      var i :| 0 <= i < |orders.sequences| && orders.sequences[i] == k;
      assert s.pending[i].sequence == k;
    }
    forall k | k in st.witnessed
      ensures k in CollectPairs(s.witnessed)
    {
      var i :| 0 <= i < |orders.authors| && orders.authors[i] == k;
      assert s.witnessed[i].0 == k;
    }
    assert CollectPairs(s.seen) == st.seen;
    assert CollectFrames(s.pending) == st.pending;
    assert CollectPairs(s.witnessed) == st.witnessed;
  }

  class MemoryJournal {
    var epoch: Option<u16>
    var seen: map<u16, u64>
    var locks: set<text>
    var pending: map<u64, OutgoingFrame>
    var nextSequence: u64
    var witnessed: map<text, seq<byte>>

    function Model(): State
      reads this
    {
      State(epoch, seen, locks, pending, nextSequence, witnessed)
    }

    constructor Default()
      ensures Model() == EMPTY
    {
      epoch, seen, locks, pending, nextSequence, witnessed := None, map[], {}, map[], 0, map[];
    }

    constructor RestoredFrom(snapshot: JournalSnapshot)
      ensures Model() == Restored(snapshot)
    {
      epoch := snapshot.epoch;
      seen := CollectPairs(snapshot.seen);
      locks := set k | k in snapshot.voteLocks;
      pending := CollectFrames(snapshot.pending);
      nextSequence := snapshot.nextSequence;
      witnessed := CollectPairs(snapshot.witnessed);
    }

    method CommitVote(subject: Subject, voter: text, frame: OutgoingFrame) returns (reply: Reply)
      modifies this
      ensures (Model(), reply) == Perform(old(Model()), Journal.CommitVote(subject, voter, frame))
    {
      var key := LockKey.Key(subject, voter);
      if key in locks {
        return Refused(AlreadyVoted);
      }
      locks := locks + {key};
      nextSequence := Max(nextSequence, SaturatingAdd(frame.sequence, 1));
      pending := pending[frame.sequence := frame];
      return Done;
    }

    method ReserveSequence() returns (reply: Reply)
      modifies this`nextSequence
      ensures (Model(), reply) == Perform(old(Model()), Journal.ReserveSequence)
    {
      reply := Reserved(nextSequence);
      nextSequence := SaturatingAdd(nextSequence, 1);
    }

    method Acknowledge(sequence: u64) returns (reply: Reply)
      modifies this`pending
      ensures (Model(), reply) == Perform(old(Model()), Journal.Acknowledge(sequence))
    {
      reply := Changed(sequence in pending);
      pending := pending - {sequence};
    }

    method DropExpired(now: u64)
      modifies this`pending
      ensures Model() == Journal.DropExpired(old(Model()), now)
    {
      pending := map s | s in pending && !Expired(pending[s], now) :: pending[s];
    }

    method Witness(author: text, received: seq<byte>) returns (reply: Reply)
      modifies this`witnessed
      ensures (Model(), reply) == Perform(old(Model()), Journal.Witness(author, received))
    {
      if author !in witnessed {
        witnessed := witnessed[author := received];
      }
      return Done;
    }

    method EnterEpoch(to: u16) returns (reply: Reply)
      modifies this`seen, this`epoch
      ensures (Model(), reply) == Perform(old(Model()), Journal.EnterEpoch(to))
    {
      if epoch.Some? && epoch.value >= to {
        return Done;
      }
      seen := map[];
      epoch := Some(to);
      return Done;
    }

    method MarkSeen(sender: u16, sequence: u64) returns (reply: Reply)
      modifies this`seen
      ensures (Model(), reply) == Perform(old(Model()), Journal.MarkSeen(sender, sequence))
    {
      var held := if sender in seen then seen[sender] else 0;
      seen := seen[sender := Max(held, sequence)];
      return Done;
    }
  }
}
