/** The canonical form says one thing: no two manifests share it. */
module CanonicalForm {
  import opened Basics
  import opened Manifest
  import opened HandKey
  import CompactFrame
  import ManifestOrder

  /** What every manifest that was read and settled is. */
  predicate Regular(m: Manifest) {
    m.phyProfile == ProfileBytes() && |m.members| <= CAPACITY
    && forall i :: 0 <= i < |m.members| ==> |m.members[i].id| <= MAX_LABEL_BYTES
  }

  lemma SplitAt<T>(a: seq<T>, x: seq<T>, b: seq<T>, y: seq<T>)
    requires |a| == |b| && a + x == b + y
    ensures a == b && x == y
  {
    assert (a + x)[..|a|] == a && (b + y)[..|b|] == b;
    assert (a + x)[|a|..] == x && (b + y)[|b|..] == y;
  }

  lemma TextPrefix(t: text, x: seq<byte>, u: text, y: seq<byte>)
    requires |t| < 256 && |u| < 256 && PushedText(t) + x == PushedText(u) + y
    ensures t == u && x == y
  {
    assert (PushedText(t) + x)[0] == |t| && (PushedText(u) + y)[0] == |u|;
    SplitAt(PushedText(t), x, PushedText(u), y);
    assert PushedText(t)[1..] == t && PushedText(u)[1..] == u;
  }

  lemma MemberPrefix(m: Member, x: seq<byte>, n: Member, y: seq<byte>)
    requires |m.id| < 256 && |n.id| < 256 && PushedMember(m) + x == PushedMember(n) + y
    ensures m == n && x == y
  {
    SpanValues();
    var mt, nt := PushedText(m.id) + x, PushedText(n.id) + y;
    assert PushedMember(m) + x == BigEndian(m.index, 2) + ([m.competence] + (m.key + mt));
    assert PushedMember(n) + y == BigEndian(n.index, 2) + ([n.competence] + (n.key + nt));
    SplitAt(BigEndian(m.index, 2), [m.competence] + (m.key + mt),
            BigEndian(n.index, 2), [n.competence] + (n.key + nt));
    SplitAt([m.competence], m.key + mt, [n.competence], n.key + nt);
    SplitAt(m.key, mt, n.key, nt);
    TextPrefix(m.id, x, n.id, y);
    CompactFrame.BigEndianInjective(m.index, n.index, 2);
  }

  lemma {:induction false} MembersInjective(a: seq<Member>, b: seq<Member>)
    requires |a| == |b| && PushedMembers(a) == PushedMembers(b)
    requires forall i :: 0 <= i < |a| ==> |a[i].id| < 256 && |b[i].id| < 256
    ensures a == b
  {
    if a != [] {
      MemberPrefix(a[0], PushedMembers(a[1..]), b[0], PushedMembers(b[1..]));
      MembersInjective(a[1..], b[1..]);
      assert a == [a[0]] + a[1..] && b == [b[0]] + b[1..];
    }
  }

  lemma {:induction false} SameWidth(a: seq<seq<byte>>, b: seq<seq<byte>>)
    requires |a| == |b| && forall i :: 0 <= i < |a| ==> |a[i]| == |b[i]|
    ensures |CompactFrame.Concat(a)| == |CompactFrame.Concat(b)|
  {
    if a != [] {
      SameWidth(a[1..], b[1..]);
    }
  }

  lemma HeaderInjective(a: Manifest, b: Manifest)
    requires HeaderParts(a) == HeaderParts(b)
    ensures a.epoch == b.epoch && a.validFrom == b.validFrom && a.validUntil == b.validUntil
    ensures a.groupKeyId == b.groupKeyId && a.byzantineBps == b.byzantineBps
    ensures a.maxCompetenceRatio == b.maxCompetenceRatio && a.heardCapacity == b.heardCapacity
    ensures |a.members| % 0x1_0000 == |b.members| % 0x1_0000
  {
    var p, q := HeaderParts(a), HeaderParts(b);
    SpanValues();
    assert p[5] == a.groupKeyId && q[5] == b.groupKeyId;
    assert p[2] == q[2] && p[3] == q[3] && p[4] == q[4] && p[6] == q[6];
    assert p[7] == q[7] && p[9] == q[9] && p[10] == q[10];
    CompactFrame.BigEndianInjective(a.epoch, b.epoch, 2);
    CompactFrame.BigEndianInjective(a.validFrom, b.validFrom, 8);
    CompactFrame.BigEndianInjective(a.validUntil, b.validUntil, 8);
    CompactFrame.BigEndianInjective(a.byzantineBps, b.byzantineBps, 4);
    CompactFrame.BigEndianInjective(a.maxCompetenceRatio, b.maxCompetenceRatio, 4);
    CompactFrame.BigEndianInjective(a.heardCapacity, b.heardCapacity, 2);
    CompactFrame.BigEndianInjective(|a.members| % 0x1_0000, |b.members| % 0x1_0000, 2);
  }

  /** Two manifests sign to the same bytes only if they say the same thing, down
      to the last label. */
  lemma CanonicalInjective(a: Manifest, b: Manifest)
    requires Regular(a) && Regular(b) && CanonicalBytes(a) == CanonicalBytes(b)
    ensures a == b.(issuer := a.issuer, signature := a.signature)
  {
    var p, q := HeaderParts(a), HeaderParts(b);
    assert forall i :: 0 <= i < |p| ==> |p[i]| == |q[i]|;
    SameWidth(p, q);
    SplitAt(CompactFrame.Concat(p), PushedMembers(a.members),
            CompactFrame.Concat(q), PushedMembers(b.members));
    CompactFrame.ConcatInjective(p, q);
    HeaderInjective(a, b);
    MembersInjective(a.members, b.members);
  }

  // ---- everything read is regular ----

  predicate RegularContent(c: Content) {
    (c.phyProfile.Some? ==> c.phyProfile.value == ProfileBytes())
    && forall i :: 0 <= i < |c.members| ==> |c.members[i].id| <= MAX_LABEL_BYTES
  }

  lemma {:induction false} AsciiLength(word: string)
    requires IsAscii(word)
    ensures ByteLength(word) == |word|
  {
    if word != [] {
      AsciiLength(word[..|word| - 1]);
    }
  }

  lemma LabelFits(word: string, line: nat)
    ensures Label(word, line).Ok? ==> |Label(word, line).value| <= MAX_LABEL_BYTES
  {
    if Label(word, line).Ok? {
      AsciiLength(word);
    }
  }

  lemma MemberRegular(isKey: key -> bool, words: seq<string>, line: nat)
    ensures MemberOf(isKey, words, line).Ok? ==>
      |MemberOf(isKey, words, line).value.id| <= MAX_LABEL_BYTES
  {
    if |words| == 5 {
      LabelFits(words[4], line);
    }
  }

  lemma AppliedRegular(isKey: key -> bool, c: Content, words: seq<string>, line: nat)
    requires RegularContent(c) && words != [] && DirectiveOf(words[0]) != MemberLine
    ensures Applied(isKey, c, words, line).Ok? ==> RegularContent(Applied(isKey, c, words, line).value)
  {
  }

  lemma StepRegular(isKey: key -> bool, c: Content, words: seq<string>, line: nat)
    requires RegularContent(c)
    ensures Step(isKey, c, words, line).Ok? ==> RegularContent(Step(isKey, c, words, line).value)
  {
    if words != [] && DirectiveOf(words[0]) == MemberLine {
      MemberRegular(isKey, words, line);
    } else if words != [] {
      AppliedRegular(isKey, c, words, line);
    }
  }

  lemma {:induction false} ReadingRegular(isKey: key -> bool, c: Content, lines: seq<seq<string>>, line: nat)
    requires RegularContent(c)
    ensures Reading(isKey, c, lines, line).Ok? ==> RegularContent(Reading(isKey, c, lines, line).value)
    decreases |lines|
  {
    if lines != [] && Step(isKey, c, lines[0], line).Ok? {
      StepRegular(isKey, c, lines[0], line);
      ReadingRegular(isKey, Step(isKey, c, lines[0], line).value, lines[1..], line + 1);
    }
  }

  lemma SettledRegular(c: Content)
    requires RegularContent(c) && Finished(c).Ok?
    ensures Regular(Finished(c).value)
    ensures forall i :: 0 <= i < |Finished(c).value.members| ==> Finished(c).value.members[i].index == i
  {
    var sorted := SortedByIndex(c.members);
    ManifestOrder.SortedIs(c.members);
    ManifestOrder.SameElements(c.members, sorted);
    forall i | 0 <= i < |sorted|
      ensures |sorted[i].id| <= MAX_LABEL_BYTES
    {
      assert sorted[i] in c.members;
    }
  }

  /** Every manifest that parses is regular, its members each at their own index. */
  lemma ParsedIsRegular(isKey: key -> bool, file: string)
    requires Parsed(isKey, file).Ok?
    ensures Regular(Parsed(isKey, file).value)
    ensures var members := Parsed(isKey, file).value.members;
            forall i :: 0 <= i < |members| ==> members[i].index == i
  {
    ReadingRegular(isKey, NOTHING, Tokens(file), 1);
    SettledRegular(Read(isKey, Tokens(file), true).value);
  }

  /** Two files with the same canonical bytes are the same fleet under the same
      terms: identity is meaning. */
  lemma IdentityIsMeaning(isKey: key -> bool, file: string, other: string)
    requires Parsed(isKey, file).Ok? && Parsed(isKey, other).Ok?
    requires CanonicalBytes(Parsed(isKey, file).value) == CanonicalBytes(Parsed(isKey, other).value)
    ensures var m, n := Parsed(isKey, file).value, Parsed(isKey, other).value;
            m == n.(issuer := m.issuer, signature := m.signature)
  {
    ParsedIsRegular(isKey, file);
    ParsedIsRegular(isKey, other);
    CanonicalInjective(Parsed(isKey, file).value, Parsed(isKey, other).value);
  }


  // ---- what it takes to be accepted ----

  /** A manifest is accepted exactly if the signature verifies over its own canonical
      bytes and the time lies in its window; otherwise the signature is refused
      before anything else, and the beginning of the window before its end. */
  lemma VerifiedExactly(verify: (seq<byte>, signature) -> bool, m: Manifest, now: u64)
    ensures Verified(verify, m, now).Ok?
       <==> verify(CanonicalBytes(m), m.signature) && m.validFrom <= now < m.validUntil
    ensures Verified(verify, m, now) == Err(BadSignature) <==> !verify(CanonicalBytes(m), m.signature)
    ensures Verified(verify, m, now) == Err(NotYetValid(m.validFrom, now))
       <==> verify(CanonicalBytes(m), m.signature) && now < m.validFrom
    ensures Verified(verify, m, now) == Err(Expired(m.validUntil, now))
       <==> verify(CanonicalBytes(m), m.signature) && m.validFrom <= now && m.validUntil <= now
  {
  }

  /** The two say the same, whoever issued and signed them. */
  predicate SameTerms(m: Manifest, n: Manifest) {
    m == n.(issuer := m.issuer, signature := m.signature)
  }

  /** If nobody can forge the administrator's signature, whatever is accepted says
      what the administrator signed: a manifest altered in anything it means has
      other bytes, and needs another signature. */
  lemma AcceptedWasSigned(
    verify: (seq<byte>, signature) -> bool, signed: set<Manifest>, m: Manifest, now: u64)
    requires forall bytes, sig :: verify(bytes, sig) ==> exists n :: n in signed && CanonicalBytes(n) == bytes
    requires Regular(m) && (forall n :: n in signed ==> Regular(n))
    requires Verified(verify, m, now).Ok?
    ensures exists n :: n in signed && SameTerms(m, n)
  {
    var n :| n in signed && CanonicalBytes(n) == CanonicalBytes(m);
    CanonicalInjective(m, n);
    assert SameTerms(m, n);
  }
}
