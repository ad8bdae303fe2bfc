/** What a receiver remembers of one sender's sequence numbers. The bitmap word
    is written out as its 64 bits, lowest first. */
module ReplayWindow {
  import opened Basics

  const REPLAY_WINDOW: nat := 64

  type word = s: seq<bool> | |s| == REPLAY_WINDOW witness seq(64, _ => false)

  function Zero(): word {
    seq(REPLAY_WINDOW, _ => false)
  }
  
  function Ones(): word {
    seq(REPLAY_WINDOW, _ => true)
  }

  /** `w << n`. */
  function ShiftLeft(w: word, n: nat): (r: word)
    requires n < REPLAY_WINDOW
    ensures forall i :: 0 <= i < REPLAY_WINDOW ==> r[i] == (i >= n && w[i - n])
  {
    seq(n, _ => false) + w[..REPLAY_WINDOW - n]
  }

  datatype Window = Window(highest: Option<u64>, seen: word)

  const NEW: Window := Window(None, Zero())

  /** After a restart, everything up to the recorded sequence counts as seen. */
  function Resumed(highest: u64): Window {
    Window(Some(highest), Ones())
  }

  function SeenIn(w: Window, sequence: u64): bool {
    match w.highest
    case None => false
    case Some(highest) =>
      if sequence > highest then false
      else if highest - sequence >= REPLAY_WINDOW then true
      else w.seen[highest - sequence]
  }

  function MarkedIn(w: Window, sequence: u64): Window {
    match w.highest
    case None => Window(Some(sequence), Zero()[0 := true])
    case Some(highest) =>
      if sequence > highest then
        var shift := sequence - highest;
        var moved := if shift >= REPLAY_WINDOW then Zero() else ShiftLeft(w.seen, shift);
        Window(Some(sequence), moved[0 := true])
      else if highest - sequence < REPLAY_WINDOW then
        w.(seen := w.seen[highest - sequence := true])
      else w
  }

  class ReplayWindow {
    var highest: Option<u64>
    var seen: word

    function Model(): Window
      reads this
    {
      Window(highest, seen)
    }

    constructor New()
      ensures Model() == NEW
    {
      highest, seen := None, Zero();
    }

    constructor ResumedAt(at: u64)
      ensures Model() == Resumed(at)
    {
      highest, seen := Some(at), Ones();
    }

    method Seen(sequence: u64) returns (r: bool)
      ensures r == SeenIn(Model(), sequence)
    {
      if highest == None || sequence > highest.value {
        return false;
      }
      var back := highest.value - sequence;
      if back >= REPLAY_WINDOW {
        return true;
      }
      return seen[back];
    }

    method Mark(sequence: u64)
      modifies this
      ensures Model() == MarkedIn(old(Model()), sequence)
    {
      if highest == None {
        highest, seen := Some(sequence), Zero()[0 := true];
      } else if sequence > highest.value {
        var shift := sequence - highest.value;
        seen := if shift >= REPLAY_WINDOW then Zero() else ShiftLeft(seen, shift);
        seen := seen[0 := true];
        highest := Some(sequence);
      } else {
        var back := highest.value - sequence;
        if back < REPLAY_WINDOW {
          seen := seen[back := true];
        }
      }
    }
  }

  // ---- what a window knows after any marks ----

  function MarkAll(w: Window, marks: seq<u64>): Window {
    if marks == [] then w
    else MarkedIn(MarkAll(w, marks[..|marks| - 1]), marks[|marks| - 1])
  }

  /** `s` was marked, or was covered by the sequence resumed from. */
  predicate Known(base: Option<u64>, marks: seq<u64>, s: u64) {
    s in marks || (base.Some? && s <= base.value)
  }

  /** The window's newest is the newest known, and each bit tells of its own. */
  ghost predicate Tells(w: Window, base: Option<u64>, marks: seq<u64>) {
    match w.highest
    case None => base == None && marks == []
    case Some(highest) =>
      Known(base, marks, highest)
      && (forall s: u64 :: Known(base, marks, s) ==> s <= highest)
      && (forall k :: 0 <= k < REPLAY_WINDOW && k <= highest ==>
        (w.seen[k] <==> Known(base, marks, highest - k)))
  }

  lemma KnownSnoc(base: Option<u64>, marks: seq<u64>, s: u64)
    ensures forall t: u64 :: Known(base, marks + [s], t) <==> Known(base, marks, t) || t == s
  {
  }

  lemma MarkTells(w: Window, base: Option<u64>, marks: seq<u64>, s: u64)
    requires Tells(w, base, marks)
    ensures Tells(MarkedIn(w, s), base, marks + [s])
  {
    KnownSnoc(base, marks, s);
    var after := MarkedIn(w, s);
    var highest := after.highest.value;
    forall k | 0 <= k < REPLAY_WINDOW && k <= highest
      ensures after.seen[k] <==> Known(base, marks + [s], highest - k)
    {
      if w.highest.Some? && s > w.highest.value && k >= s - w.highest.value {
        assert highest - k == w.highest.value - (k - (s - w.highest.value));
      }
    }
  }

  lemma {:induction false} MarksTell(base: Option<u64>, marks: seq<u64>)
    ensures Tells(MarkAll(if base == None then NEW else Resumed(base.value), marks), base, marks)
  {
    if marks != [] {
      MarksTell(base, marks[..|marks| - 1]);
      MarkTells(MarkAll(if base == None then NEW else Resumed(base.value), marks[..|marks| - 1]),
                base, marks[..|marks| - 1], marks[|marks| - 1]);
      assert marks == marks[..|marks| - 1] + [marks[|marks| - 1]];
    }
  }

  /** Something known is `REPLAY_WINDOW` or more ahead. */
  predicate FarBehind(base: Option<u64>, marks: seq<u64>, s: u64) {
    (base.Some? && base.value >= s + REPLAY_WINDOW)
    || exists i :: 0 <= i < |marks| && marks[i] >= s + REPLAY_WINDOW
  }

  /** After any marks, in any order, a sequence reads as seen exactly if it was
      marked, was covered when the window was resumed, or is 64 or more behind
      something that was. */
  lemma SeenExactly(base: Option<u64>, marks: seq<u64>, s: u64)
    ensures SeenIn(MarkAll(if base == None then NEW else Resumed(base.value), marks), s)
        <==> Known(base, marks, s) || FarBehind(base, marks, s)
  {
    MarksTell(base, marks);
    var w := MarkAll(if base == None then NEW else Resumed(base.value), marks);
    if w.highest.Some? {
      var highest := w.highest.value;
      if highest in marks {
        var i :| 0 <= i < |marks| && marks[i] == highest;
      }
      if FarBehind(base, marks, s) {
        NoneKnownAhead(w, base, marks, s);
      }
      if s <= highest && highest - s < REPLAY_WINDOW {
        assert w.seen[highest - s] <==> Known(base, marks, highest - (highest - s));
      }
    }
  }

  lemma NoneKnownAhead(w: Window, base: Option<u64>, marks: seq<u64>, s: u64)
    requires Tells(w, base, marks) && FarBehind(base, marks, s)
    ensures w.highest.Some? && w.highest.value >= s + REPLAY_WINDOW
  {
    if base.Some? && base.value >= s + REPLAY_WINDOW {
      assert Known(base, marks, base.value);
    } else {
      var i :| 0 <= i < |marks| && marks[i] >= s + REPLAY_WINDOW;
      assert Known(base, marks, marks[i]);
    }
  }

  /** A sequence once seen stays seen, and a marked one is seen. */
  lemma SeenStays(w: Window, s: u64, t: u64)
    ensures SeenIn(w, t) ==> SeenIn(MarkedIn(w, s), t)
    ensures SeenIn(MarkedIn(w, s), s)
  {
  }
}
