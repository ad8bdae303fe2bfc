/** Recovering a log of self-delimiting records as the longest prefix that can
    be read: what survives a cut, whatever the record format. */
module Recovery {
  import opened Basics

  /** How one record is written, and read off the front of a byte string with
      the number of bytes it took. `good` are the records worth writing. */
  datatype Format<!E> = Format(
    write: E -> seq<byte>,
    read: seq<byte> -> Option<(E, nat)>,
    good: E -> bool)

  ghost predicate ReadsBack<E(!new)>(f: Format<E>, e: E) {
    (forall rest :: f.read(f.write(e) + rest) == Some((e, |f.write(e)|)))
    && (forall cut :: 0 <= cut < |f.write(e)| ==> f.read(f.write(e)[..cut]) == None)
  }

  ghost predicate ReadsLocally<E>(f: Format<E>, a: seq<byte>, b: seq<byte>) {
    f.read(a).Some? ==>
      var n := f.read(a).value.1;
      0 < n <= |a| && (n <= |b| && b[..n] == a[..n] ==> f.read(b) == f.read(a))
  }

  ghost predicate Lawful<E(!new)>(f: Format<E>) {
    (forall e :: f.good(e) ==> ReadsBack(f, e))
    && (forall a, b :: ReadsLocally(f, a, b))
  }

  predicate AllGood<E>(f: Format<E>, entries: seq<E>) {
    forall i :: 0 <= i < |entries| ==> f.good(entries[i])
  }

  function Log<E>(f: Format<E>, entries: seq<E>): seq<byte>
    decreases |entries|
  {
    if entries == [] then [] else f.write(entries[0]) + Log(f, entries[1..])
  }

  lemma {:induction false} LogSplit<E>(f: Format<E>, a: seq<E>, b: seq<E>)
    ensures Log(f, a + b) == Log(f, a) + Log(f, b)
    decreases |a|
  {
    if a == [] {
      assert a + b == b;
    } else {
      assert (a + b)[1..] == a[1..] + b;
      LogSplit(f, a[1..], b);
    }
  }

  /** The records recovery believes: it stops at the first it cannot read. */
  function Believed<E>(f: Format<E>, bytes: seq<byte>): seq<E>
    decreases |bytes|
  {
    match f.read(bytes)
    case None => []
    case Some((e, n)) => if 0 < n <= |bytes| then [e] + Believed(f, bytes[n..]) else []
  }

  /** How many bytes they occupy. */
  function BelievedLength<E>(f: Format<E>, bytes: seq<byte>): (length: nat)
    ensures length <= |bytes|
    decreases |bytes|
  {
    match f.read(bytes)
    case None => 0
    case Some((_, n)) => if 0 < n <= |bytes| then n + BelievedLength(f, bytes[n..]) else 0
  }

  lemma BelievedCons<E(!new)>(f: Format<E>, e: E, rest: seq<byte>)
    requires Lawful(f) && f.good(e)
    ensures |f.write(e)| > 0
    ensures Believed(f, f.write(e) + rest) == [e] + Believed(f, rest)
    ensures BelievedLength(f, f.write(e) + rest) == |f.write(e)| + BelievedLength(f, rest)
  {
    var bytes := f.write(e) + rest;
    assert ReadsBack(f, e) && ReadsLocally(f, bytes, bytes);
    assert f.read(bytes) == Some((e, |f.write(e)|));
    assert bytes[|f.write(e)|..] == rest;
  }

  lemma Regroup<T>(a: seq<T>, b: seq<T>, c: seq<T>)
    ensures (a + b) + c == a + (b + c)
  {
  }

  /** Records already written stay believed, whatever follows them. */
  lemma {:induction false} BelievedAfterLog<E(!new)>(f: Format<E>, entries: seq<E>, rest: seq<byte>)
    requires Lawful(f) && AllGood(f, entries)
    ensures Believed(f, Log(f, entries) + rest) == entries + Believed(f, rest)
    ensures BelievedLength(f, Log(f, entries) + rest)
         == |Log(f, entries)| + BelievedLength(f, rest)
    decreases |entries|
  {
    if entries == [] {
      assert Log(f, entries) + rest == rest;
    } else {
      var e, tail := entries[0], entries[1..];
      BelievedAfterLog(f, tail, rest);
      BelievedCons(f, e, Log(f, tail) + rest);
      Regroup(f.write(e), Log(f, tail), rest);
      Regroup([e], tail, Believed(f, rest));
      assert entries == [e] + tail;
    }
  }

  lemma BelievedNothing<E(!new)>(f: Format<E>)
    requires Lawful(f)
    ensures Believed(f, []) == [] && BelievedLength(f, []) == 0
  {
    assert ReadsLocally(f, [], []);
  }

  lemma BelievedLog<E(!new)>(f: Format<E>, entries: seq<E>)
    requires Lawful(f) && AllGood(f, entries)
    ensures Believed(f, Log(f, entries)) == entries
    ensures BelievedLength(f, Log(f, entries)) == |Log(f, entries)|
  {
    BelievedAfterLog(f, entries, []);
    BelievedNothing(f);
    assert Log(f, entries) + [] == Log(f, entries) && entries + [] == entries;
  }

  /** How many records lie wholly before a cut. */
  function WholeBefore<E>(f: Format<E>, entries: seq<E>, cut: nat): (k: nat)
    ensures k <= |entries|
    decreases |entries|
  {
    if entries == [] || cut < |f.write(entries[0])| then 0
    else 1 + WholeBefore(f, entries[1..], cut - |f.write(entries[0])|)
  }

  lemma LogCons<E>(f: Format<E>, e: E, tail: seq<E>)
    ensures Log(f, [e] + tail) == f.write(e) + Log(f, tail)
  {
    assert ([e] + tail)[1..] == tail;
  }

  ghost predicate RecoversTo<E>(f: Format<E>, entries: seq<E>, cut: nat, k: nat)
    requires k <= |entries| && cut <= |Log(f, entries)|
  {
    var bytes := Log(f, entries)[..cut];
    Believed(f, bytes) == entries[..k]
    && BelievedLength(f, bytes) == |Log(f, entries[..k])| <= cut
    && (k < |entries| ==> cut < |Log(f, entries[..k + 1])|)
  }

  lemma CutInFirst<E(!new)>(f: Format<E>, e: E, tail: seq<E>, cut: nat)
    requires Lawful(f) && f.good(e) && cut < |f.write(e)|
    ensures cut <= |Log(f, [e] + tail)| && RecoversTo(f, [e] + tail, cut, 0)
  {
    assert ReadsBack(f, e);
    LogCons(f, e, tail);
    assert Log(f, [e] + tail)[..cut] == f.write(e)[..cut];
    LogCons(f, e, []);
    assert ([e] + tail)[..1] == [e] + [];
  }

  lemma CutLater<E(!new)>(f: Format<E>, e: E, tail: seq<E>, cut: nat, k: nat)
    requires Lawful(f) && f.good(e) && |f.write(e)| <= cut <= |Log(f, [e] + tail)|
    requires k <= |tail| && cut - |f.write(e)| <= |Log(f, tail)|
    requires RecoversTo(f, tail, cut - |f.write(e)|, k)
    ensures RecoversTo(f, [e] + tail, cut, k + 1)
  {
    var rest := Log(f, tail)[..cut - |f.write(e)|];
    LogCons(f, e, tail);
    assert Log(f, [e] + tail)[..cut] == f.write(e) + rest;
    BelievedCons(f, e, rest);
    assert ([e] + tail)[..k + 1] == [e] + tail[..k];
    LogCons(f, e, tail[..k]);
    if k < |tail| {
      assert ([e] + tail)[..k + 2] == [e] + tail[..k + 1];
      LogCons(f, e, tail[..k + 1]);
    }
  }

  /** For every cut of every log, what comes back is exactly the records that
      lie wholly before the cut, and their exact length. */
  lemma {:induction false} CutAnywhere<E(!new)>(f: Format<E>, entries: seq<E>, cut: nat)
    requires Lawful(f) && AllGood(f, entries) && cut <= |Log(f, entries)|
    ensures RecoversTo(f, entries, cut, WholeBefore(f, entries, cut))
    decreases |entries|
  {
    if entries == [] {
      BelievedNothing(f);
    } else {
      var e, tail := entries[0], entries[1..];
      assert entries == [e] + tail;
      if cut < |f.write(e)| {
        CutInFirst(f, e, tail, cut);
      } else {
        LogCons(f, e, tail);
        CutAnywhere(f, tail, cut - |f.write(e)|);
        CutLater(f, e, tail, cut, WholeBefore(f, tail, cut - |f.write(e)|));
      }
    }
  }

  /** Opening is also the repair, and repairing again changes nothing, for any
      bytes at all. */
  lemma {:induction false} ReopeningChangesNothing<E(!new)>(f: Format<E>, bytes: seq<byte>)
    requires Lawful(f)
    ensures var repaired := bytes[..BelievedLength(f, bytes)];
            Believed(f, repaired) == Believed(f, bytes)
            && BelievedLength(f, repaired) == |repaired|
    decreases |bytes|
  {
    var repaired := bytes[..BelievedLength(f, bytes)];
    match f.read(bytes)
    case None => BelievedNothing(f);
    case Some((e, n)) =>
      assert ReadsLocally(f, bytes, repaired);
      assert repaired[..n] == bytes[..n];
      assert repaired[n..] == bytes[n..][..BelievedLength(f, bytes[n..])];
      ReopeningChangesNothing(f, bytes[n..]);
  }

  /** Appending to a repaired log appends to what it is believed to hold. */
  lemma BelievedAppend<E(!new)>(f: Format<E>, bytes: seq<byte>, e: E)
    requires Lawful(f) && f.good(e) && BelievedLength(f, bytes) == |bytes|
    ensures Believed(f, bytes + f.write(e)) == Believed(f, bytes) + [e]
    ensures BelievedLength(f, bytes + f.write(e)) == |bytes + f.write(e)|
  {
    BelievedJoin(f, bytes, f.write(e));
    BelievedCons(f, e, []);
    BelievedNothing(f);
    assert f.write(e) + [] == f.write(e) && [e] + [] == [e];
  }

  /** Bytes wholly believed are read the same whatever is put after them. */
  lemma {:induction false} BelievedJoin<E(!new)>(f: Format<E>, a: seq<byte>, b: seq<byte>)
    requires Lawful(f) && BelievedLength(f, a) == |a|
    ensures Believed(f, a + b) == Believed(f, a) + Believed(f, b)
    ensures BelievedLength(f, a + b) == |a| + BelievedLength(f, b)
    decreases |a|
  {
    if a == [] {
      BelievedNothing(f);
      assert a + b == b;
    } else {
      var (e, n) := f.read(a).value;
      assert ReadsLocally(f, a, a + b);
      assert (a + b)[..n] == a[..n];
      assert f.read(a + b) == f.read(a);
      assert (a + b)[n..] == a[n..] + b;
      BelievedJoin(f, a[n..], b);
    }
  }

  /** A record in flight that was cut short leaves no trace once reopened. */
  lemma TornAppend<E(!new)>(f: Format<E>, bytes: seq<byte>, e: E, cut: nat)
    requires Lawful(f) && f.good(e) && BelievedLength(f, bytes) == |bytes|
    requires cut < |f.write(e)|
    ensures Believed(f, bytes + f.write(e)[..cut]) == Believed(f, bytes)
    ensures BelievedLength(f, bytes + f.write(e)[..cut]) == |bytes|
  {
    BelievedJoin(f, bytes, f.write(e)[..cut]);
    assert ReadsBack(f, e);
  }
}
