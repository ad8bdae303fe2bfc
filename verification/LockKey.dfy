/** Identity of one vote lock: the exact case, plus who voted on it. */
module LockKey {
  import opened Basics
  import opened Postcard
  import opened Contracts

  const SEPARATOR: byte := 0x1F

  function HexDigit(n: nat): byte
    requires n < 16
  {
    if n < 10 then 48 + n else 87 + n
  }

  function Hex(bytes: seq<byte>): (r: seq<byte>)
    ensures |r| == 2 * |bytes|
    ensures forall i :: 0 <= i < |r| ==> SEPARATOR < r[i] <= 0x7F
  {
    if bytes == [] then [] else [HexDigit(bytes[0] / 16), HexDigit(bytes[0] % 16)] + Hex(bytes[1..])
  }

  function Decimal(n: nat): (r: seq<byte>)
    ensures |r| >= 1 && forall i :: 0 <= i < |r| ==> 48 <= r[i] <= 57
  {
    if n < 10 then [48 + n] else Decimal(n / 10) + [48 + n % 10]
  }

  const DIGITS: string := "0123456789abcdef"

  lemma DigitIs(n: nat)
    requires n < 16
    ensures HexDigit(n) == DIGITS[n] as int
  {
  }

  /** The content hash is spelled in lower-case hexadecimal, high digit first. */
  lemma {:induction false} HexSpells(bytes: seq<byte>, i: nat)
    requires i < |bytes|
    ensures Hex(bytes)[2 * i] == DIGITS[bytes[i] / 16] as int
    ensures Hex(bytes)[2 * i + 1] == DIGITS[bytes[i] % 16] as int
  {
    if i == 0 {
      DigitIs(bytes[0] / 16);
      DigitIs(bytes[0] % 16);
    } else {
      HexSpells(bytes[1..], i - 1);
    }
  }

  /** The revision is spelled in decimal, without a nought in front. */
  lemma {:induction false} DecimalSpells(n: nat)
    ensures n < 10 ==> Decimal(n) == [DIGITS[n] as int]
    ensures n >= 10 ==> Decimal(n)[0] != '0' as int
                        && Decimal(n) == Decimal(n / 10) + [DIGITS[n % 10] as int]
  {
    if n >= 100 {
      DecimalSpells(n / 10);
    }
  }

  /** The key, field by field. The start of the claim is not part of it. */
  function LockKeyOf(subject: Subject, voter: text): (key: seq<byte>) {
    subject.mission + [SEPARATOR] + (subject.event + [SEPARATOR] + (Hex(subject.contentHash)
    + [SEPARATOR] + (Decimal(subject.revision) + [SEPARATOR] + voter)))
  }

  lemma LockKeyIsText(subject: Subject, voter: text)
    ensures Utf8(LockKeyOf(subject, voter))
  {
    var separator := [SEPARATOR];
    AsciiIsUtf8(separator);
    AsciiIsUtf8(Hex(subject.contentHash));
    AsciiIsUtf8(Decimal(subject.revision));
    Utf8Concat(Decimal(subject.revision), separator);
    Utf8Concat(Decimal(subject.revision) + separator, voter);
    var tail := Decimal(subject.revision) + separator + voter;
    Utf8Concat(Hex(subject.contentHash), separator);
    Utf8Concat(Hex(subject.contentHash) + separator, tail);
    var hashed := Hex(subject.contentHash) + separator + tail;
    Utf8Concat(subject.event, separator);
    Utf8Concat(subject.event + separator, hashed);
    Utf8Concat(subject.mission, separator);
    Utf8Concat(subject.mission + separator, subject.event + separator + hashed);
  }

  function Key(subject: Subject, voter: text): text {
    LockKeyIsText(subject, voter);
    LockKeyOf(subject, voter)
  }

  /** Ten to the power `n`. */
  function TenTo(n: nat): nat {
    if n == 0 then 1 else 10 * TenTo(n - 1)
  }

  lemma NotTheLast(n: nat, k: nat)
    requires 0 < n < TenTo(k)
    ensures k > 0
  {
  }

  lemma TenthFits(n: nat, k: nat)
    requires n < TenTo(k) && k > 0
    ensures n / 10 < TenTo(k - 1)
  {
  }

  lemma OneMoreDigit(n: nat, after: seq<byte>)
    ensures n >= 10 ==> Decimal(n / 10) + ([48 + n % 10] + after) == Decimal(n) + after
    ensures n < 10 ==> [48 + n % 10] + after == Decimal(n) + after
  {
  }

  lemma U32Fits(n: u32)
    ensures n < TenTo(10)
  {
    assert TenTo(5) == 10_0000;
    assert TenTo(10) == 100_0000_0000;
  }

  /** The digits, written backwards into a twenty-byte buffer. */
  method PushDecimal(n: u32) returns (out: seq<byte>)
    ensures out == Decimal(n)
  {
    var digits := new byte[20];
    var index := 20;
    var left: nat := n;
    ghost var after: seq<byte> := [];
    U32Fits(n);
    while true
      invariant 10 < index <= 20 && left < TenTo(index - 10)
      invariant digits[index..] == after
      invariant Decimal(left) + after == Decimal(n)
      decreases index
    {
      OneMoreDigit(left, after);
      TenthFits(left, index - 10);
      index := index - 1;
      digits[index] := 48 + left % 10;
      assert digits[index..] == [48 + left % 10] + after;
      after := [48 + left % 10] + after;
      left := left / 10;
      if left == 0 {
        break;
      }
      NotTheLast(left, index - 10);
    }
    out := digits[index..];
  }

  /** Two hexadecimal digits a byte. */
  method PushHex(bytes: seq<byte>) returns (out: seq<byte>)
    ensures out == Hex(bytes)
  {
    out := [];
    for at := 0 to |bytes|
      invariant out + Hex(bytes[at..]) == Hex(bytes)
    {
      ghost var before := out;
      out := out + [HexDigit(bytes[at] / 16), HexDigit(bytes[at] % 16)];
      assert bytes[at..][1..] == bytes[at + 1..];
      assert out + Hex(bytes[at + 1..]) == before + Hex(bytes[at..]);
    }
  }

  lemma PushedInOrder(s: seq<byte>, m: seq<byte>, e: seq<byte>, h: seq<byte>, r: seq<byte>, v: seq<byte>)
    ensures ((m + s + e + s) + h + s) + r + s + v == m + s + (e + s + (h + s + (r + s + v)))
  {
    var front := m + s + e + s;
    assert front + h + s + r + s + v == front + (h + s + (r + s + v));
    assert front == m + s + (e + s);
  }

  /** Built as the journal builds it: pushed piece by piece. */
  method BuildKey(subject: Subject, voter: text) returns (key: seq<byte>)
    ensures key == Key(subject, voter)
  {
    var hash := PushHex(subject.contentHash);
    var revision := PushDecimal(subject.revision);
    key := subject.mission + [SEPARATOR] + subject.event + [SEPARATOR];
    key := key + hash + [SEPARATOR];
    key := key + revision + [SEPARATOR] + voter;
    PushedInOrder([SEPARATOR], subject.mission, subject.event, hash, revision, voter);
  }

  // ---- when two votes share a lock ----

  lemma {:induction false} HexInjective(a: seq<byte>, b: seq<byte>)
    requires |a| == |b| && Hex(a) == Hex(b)
    ensures a == b
  {
    if a != [] {
      assert Hex(a)[0] == Hex(b)[0] && Hex(a)[1] == Hex(b)[1];
      assert Hex(a[1..]) == Hex(a)[2..] == Hex(b)[2..] == Hex(b[1..]);
      HexInjective(a[1..], b[1..]);
      assert a == [a[0]] + a[1..] && b == [b[0]] + b[1..];
    }
  }

  lemma {:induction false} DecimalInjective(m: nat, n: nat)
    requires Decimal(m) == Decimal(n)
    ensures m == n
  {
    var a, b := Decimal(m), Decimal(n);
    assert a[|a| - 1] == b[|b| - 1];
    assert m % 10 == n % 10;
    if m >= 10 && n >= 10 {
      assert Decimal(m / 10) == a[..|a| - 1] == b[..|b| - 1] == Decimal(n / 10);
      DecimalInjective(m / 10, n / 10);
    }
  }

  predicate Separable(s: seq<byte>) {
    SEPARATOR !in s
  }

  /** Where the first separator stands. */
  function FirstSeparator(s: seq<byte>): nat {
    if s == [] || s[0] == SEPARATOR then 0 else 1 + FirstSeparator(s[1..])
  }

  lemma {:induction false} FirstSeparatorAfter(a: seq<byte>, x: seq<byte>)
    requires Separable(a)
    ensures FirstSeparator(a + [SEPARATOR] + x) == |a|
  {
    var s := a + [SEPARATOR] + x;
    if a != [] {
      assert s[0] == a[0];
      assert s[1..] == a[1..] + [SEPARATOR] + x;
      FirstSeparatorAfter(a[1..], x);
    }
  }

  /** A field without a separator can be read back off the front. */
  lemma FirstField(a: seq<byte>, x: seq<byte>, b: seq<byte>, y: seq<byte>)
    requires Separable(a) && Separable(b)
    requires a + [SEPARATOR] + x == b + [SEPARATOR] + y
    ensures a == b && x == y
  {
    FirstSeparatorAfter(a, x);
    FirstSeparatorAfter(b, y);
    var s := a + [SEPARATOR] + x;
    assert a == s[..|a|] && x == s[|a| + 1..];
    var t := b + [SEPARATOR] + y;
    assert b == t[..|b|] && y == t[|b| + 1..];
  }

  /** With separator-free names, two votes take the same lock exactly when they
      agree on everything but the start of the claim. */
  lemma SameLockExactly(s: Subject, u: text, t: Subject, v: text)
    requires Separable(s.mission) && Separable(s.event)
    requires Separable(t.mission) && Separable(t.event)
    ensures Key(s, u) == Key(t, v)
       <==> s.(startedAt := 0) == t.(startedAt := 0) && u == v
  {
    if Key(s, u) == Key(t, v) {
      var separator := [SEPARATOR];
      var s3, t3 := Decimal(s.revision) + separator + u, Decimal(t.revision) + separator + v;
      var s2, t2 := Hex(s.contentHash) + separator + s3, Hex(t.contentHash) + separator + t3;
      var s1, t1 := s.event + separator + s2, t.event + separator + t2;
      FirstField(s.mission, s1, t.mission, t1);
      FirstField(s.event, s2, t.event, t2);
      FirstField(Hex(s.contentHash), s3, Hex(t.contentHash), t3);
      FirstField(Decimal(s.revision), u, Decimal(t.revision), v);
      HexInjective(s.contentHash, t.contentHash);
      DecimalInjective(s.revision, t.revision);
    }
  }

  lemma MovedBoundary(front: seq<byte>, back: seq<byte>, event: seq<byte>, tail: seq<byte>)
    ensures front + [SEPARATOR] + ((back + [SEPARATOR] + event) + [SEPARATOR] + tail)
         == (front + [SEPARATOR] + back) + [SEPARATOR] + (event + [SEPARATOR] + tail)
  {
  }

  /** A subject as `Subject::new` grants it. */
  predicate LawfulSubject(s: Subject) {
    NewSubject(s.mission, s.event, s.revision, s.contentHash, s.startedAt) == Ok(s)
  }

  /** A separator inside a mission always admits a second, equally lawful subject
      under the same lock. */
  lemma SeparatorInMissionCollides(front: text, back: text, s: Subject, voter: text)
    requires s.mission == front + [SEPARATOR] + back && front != [] && s.event != []
    ensures exists t: Subject ::
      t.mission != s.mission && LawfulSubject(t) && Key(t, voter) == Key(s, voter)
  {
    var separator := [SEPARATOR];
    AsciiIsUtf8(separator);
    Utf8Concat(back, separator);
    Utf8Concat(back + separator, s.event);
    var event: text := back + separator + s.event;
    var t := Subject(front, event, s.revision, s.contentHash, s.startedAt);
    assert |t.mission| < |s.mission|;
    MovedBoundary(front, back, s.event, Hex(s.contentHash)
      + separator + (Decimal(s.revision) + separator + voter));
    assert Key(t, voter) == Key(s, voter);
  }

  /** So does a separator inside an event, unless it is the last byte. */
  lemma SeparatorInEventCollides(front: text, back: text, s: Subject, voter: text)
    requires s.event == front + [SEPARATOR] + back && back != [] && s.mission != []
    ensures exists t: Subject ::
      t.mission != s.mission && LawfulSubject(t) && Key(t, voter) == Key(s, voter)
  {
    var separator := [SEPARATOR];
    AsciiIsUtf8(separator);
    Utf8Concat(s.mission, separator);
    Utf8Concat(s.mission + separator, front);
    var mission: text := s.mission + separator + front;
    var t := Subject(mission, back, s.revision, s.contentHash, s.startedAt);
    assert |t.mission| > |s.mission|;
    MovedBoundary(s.mission, front, back, Hex(s.contentHash)
      + separator + (Decimal(s.revision) + separator + voter));
    assert Key(t, voter) == Key(s, voter);
  }

  lemma WidthInside(a: seq<byte>, x: seq<byte>)
    requires a != [] && CharWidth(a + [SEPARATOR] + x) > 0
    ensures CharWidth(a + [SEPARATOR] + x) == CharWidth(a)
  {
    var s := a + [SEPARATOR] + x;
    assert forall i :: 0 <= i < |a| ==> s[i] == a[i];
    assert s[|a|] == SEPARATOR;
  }

  /** Text cut at a separator is text on both sides. */
  lemma {:induction false} TextAround(a: seq<byte>, x: seq<byte>)
    requires Utf8(a + [SEPARATOR] + x)
    ensures Utf8(a) && Utf8(x)
    decreases |a|
  {
    var s := a + [SEPARATOR] + x;
    if a == [] {
      assert CharWidth(s) == 1 && s[1..] == x;
    } else {
      WidthInside(a, x);
      assert s[CharWidth(a)..] == a[CharWidth(a)..] + [SEPARATOR] + x;
      TextAround(a[CharWidth(a)..], x);
    }
  }

  /** A field without a separator can be read back off the end. */
  lemma LastField(a: seq<byte>, x: seq<byte>, b: seq<byte>, y: seq<byte>)
    requires Separable(x) && Separable(y)
    requires a + [SEPARATOR] + x == b + [SEPARATOR] + y
    ensures a == b && x == y
  {
    var s := a + [SEPARATOR] + x;
    assert s[|a|] == s[|b|] == SEPARATOR;
    assert forall i :: |a| < i < |s| ==> s[i] == x[i - |a| - 1];
    assert s == b + [SEPARATOR] + y;
    assert forall i :: |b| < i < |s| ==> s[i] == y[i - |b| - 1];
    assert a == s[..|a|] && b == s[..|b|];
    assert x == s[|a| + 1..] && y == s[|b| + 1..];
  }

  /** Mission and event as they stand in the key. */
  function Names(s: Subject): seq<byte> {
    s.mission + [SEPARATOR] + s.event
  }

  lemma KeyFromTheBack(m: seq<byte>, c: seq<byte>, e: seq<byte>, h: seq<byte>, r: seq<byte>, v: seq<byte>)
    ensures m + c + (e + c + (h + c + (r + c + v))) == (((m + c + e) + c + h) + c + r) + (c + v)
  {
    var front := m + c + e;
    assert m + c + (e + c + (h + c + (r + c + v))) == front + c + (h + c + (r + c + v));
    assert front + c + (h + c + (r + c + v)) == ((front + c + h) + c + r) + (c + v);
  }

  /** Under one voter, a key pins down everything but where the mission ends. */
  lemma SameKeySameNames(s: Subject, t: Subject, voter: text)
    requires Key(s, voter) == Key(t, voter)
    ensures Names(s) == Names(t) && s.contentHash == t.contentHash && s.revision == t.revision
  {
    var separator := [SEPARATOR];
    var h, g := Hex(s.contentHash), Hex(t.contentHash);
    var q, r := Decimal(s.revision), Decimal(t.revision);
    KeyFromTheBack(s.mission, separator, s.event, h, q, voter);
    KeyFromTheBack(t.mission, separator, t.event, g, r, voter);
    var a, b := (Names(s) + separator + h) + separator + q, (Names(t) + separator + g) + separator + r;
    var key, tail := Key(s, voter), separator + voter;
    assert a == key[..|key| - |tail|] && b == key[..|key| - |tail|];
    LastField(Names(s) + separator + h, q, Names(t) + separator + g, r);
    LastField(Names(s), h, Names(t), g);
    HexInjective(s.contentHash, t.contentHash);
    DecimalInjective(s.revision, t.revision);
  }

  /** No separator past the first byte of the mission, nor before the last byte of
      the event: there is one way only to cut the two apart. */
  predicate CutsOneWay(s: Subject) {
    (forall i :: 1 <= i < |s.mission| ==> s.mission[i] != SEPARATOR)
    && (forall i :: 0 <= i < |s.event| - 1 ==> s.event[i] != SEPARATOR)
  }

  lemma OneCut(s: Subject, t: Subject)
    requires CutsOneWay(s) && Names(s) == Names(t) && t.mission != [] && t.event != []
    ensures s.mission == t.mission && s.event == t.event
  {
    var names, m, n := Names(s), |s.mission|, |t.mission|;
    assert names[n] == Names(t)[n] == SEPARATOR;
    assert forall i :: 0 <= i < m ==> names[i] == s.mission[i];
    assert forall i :: m < i < |names| ==> names[i] == s.event[i - m - 1];
    assert |names| == m + 1 + |s.event| == n + 1 + |t.event|;
    assert n == m;
    assert s.mission == names[..m] && t.mission == Names(t)[..n];
    assert s.event == names[m + 1..] && t.event == Names(t)[n + 1..];
  }

  /** Text holding a separator at `i` is two texts around it. */
  lemma CutText(s: text, i: nat) returns (front: text, back: text)
    requires i < |s| && s[i] == SEPARATOR
    ensures s == front + [SEPARATOR] + back && |front| == i
  {
    var a, b := s[..i], s[i + 1..];
    assert s == a + [SEPARATOR] + b;
    TextAround(a, b);
    front, back := a, b;
  }

  lemma AnotherCut(s: Subject, voter: text)
    requires LawfulSubject(s) && !CutsOneWay(s)
    ensures exists t: Subject ::
      t.mission != s.mission && LawfulSubject(t) && Key(t, voter) == Key(s, voter)
  {
    if i :| 1 <= i < |s.mission| && s.mission[i] == SEPARATOR {
      var front, back := CutText(s.mission, i);
      SeparatorInMissionCollides(front, back, s, voter);
    } else {
      var i :| 0 <= i < |s.event| - 1 && s.event[i] == SEPARATOR;
      var front, back := CutText(s.event, i);
      SeparatorInEventCollides(front, back, s, voter);
    }
  }

  /** The other subject, if it is lawful and takes the same lock, is the same claim
      in all but its start. */
  ghost predicate SharesOnlyItsOwn(s: Subject, voter: text, t: Subject) {
    LawfulSubject(t) && Key(t, voter) == Key(s, voter) ==> t.(startedAt := s.startedAt) == s
  }

  /** Under one voter, a lawful subject has its lock to itself exactly when mission
      and event can be cut apart in one way only. */
  lemma LockIsItsOwnExactly(s: Subject, voter: text)
    requires LawfulSubject(s)
    ensures (forall t: Subject :: SharesOnlyItsOwn(s, voter, t)) <==> CutsOneWay(s)
  {
    if CutsOneWay(s) {
      forall t: Subject | LawfulSubject(t) && Key(t, voter) == Key(s, voter)
        ensures t.(startedAt := s.startedAt) == s
      {
        SameKeySameNames(s, t, voter);
        OneCut(s, t);
      }
    } else {
      AnotherCut(s, voter);
      var t: Subject :| t.mission != s.mission && LawfulSubject(t) && Key(t, voter) == Key(s, voter);
      assert !SharesOnlyItsOwn(s, voter, t);
    }
  }

  /** Voters whose names hold no separator never share a lock, whatever their
      subjects hold. */
  lemma VotersApart(s: Subject, u: text, t: Subject, v: text)
    requires Separable(u) && Separable(v) && Key(s, u) == Key(t, v)
    ensures u == v
  {
    var separator := [SEPARATOR];
    KeyFromTheBack(s.mission, separator, s.event, Hex(s.contentHash), Decimal(s.revision), u);
    KeyFromTheBack(t.mission, separator, t.event, Hex(t.contentHash), Decimal(t.revision), v);
    var a := (Names(s) + separator + Hex(s.contentHash)) + separator + Decimal(s.revision);
    var b := (Names(t) + separator + Hex(t.contentHash)) + separator + Decimal(t.revision);
    Associative(a, separator, u);
    Associative(b, separator, v);
    LastField(a, u, b, v);
  }
}
