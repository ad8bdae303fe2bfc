/** Which files are manifests, and what they say: every line of one accounts for
    exactly one thing in it, and everything lawful can be written down. */
module ManifestMeaning {
  import opened Basics
  import opened ManifestText
  import opened Manifest
  import HandKey
  import ManifestOrder
  import Quorum

  type key = HandKey.key

  // ---- one way to write a value ----

  function NumberWord(n: nat): (r: string)
    ensures r != []
  {
    if n < 10 then [DIGITS[n]] else NumberWord(n / 10) + [DIGITS[n % 10]]
  }

  lemma {:induction false} NumberWordReads(n: nat)
    ensures var w := NumberWord(n);
            (forall k :: 0 <= k < |w| ==> IsDigit(w[k])) && Decimal(w) == n
            && (n > 0 ==> w[0] != '0') && (n == 0 ==> |w| == 1)
    decreases n
  {
    if n >= 10 {
      NumberWordReads(n / 10);
      var w := NumberWord(n);
      assert w[..|w| - 1] == NumberWord(n / 10);
    } else {
      assert NumberWord(n)[..0] == [];
    }
  }

  /** A number is read off exactly the word it is written as. */
  lemma NumberReadsExactly(word: string, max: nat, n: nat)
    ensures CanonicalNumber(word, max) == Ok(n) <==> n <= max && word == NumberWord(n)
  {
    NumberWordReads(n);
    if CanonicalNumber(word, max) == Ok(n) {
      OneSpelling(word, NumberWord(n), max);
    }
  }

  lemma NumberInExactly(word: string, max: nat, line: nat, n: nat)
    ensures NumberIn(word, max, line) == Ok(n) <==> n <= max && word == NumberWord(n)
  {
    NumberReadsExactly(word, max, n);
  }

  lemma HexReadsExactly(word: string, n: nat, bytes: seq<byte>)
    requires |bytes| == n
    ensures HexBytes(word, n) == Some(bytes) <==> word == Hex(bytes)
  {
    HexRoundTrip(bytes);
    if HexBytes(word, n) == Some(bytes) {
      HexOneSpelling(word);
    }
  }

  predicate IsLabel(t: text) {
    0 < |t| <= MAX_LABEL_BYTES && forall k :: 0 <= k < |t| ==> t[k] < 0x80 && LabelChar(t[k] as char)
  }

  function TextWord(t: text): string
    requires IsLabel(t)
  {
    seq(|t|, k requires 0 <= k < |t| => t[k] as char)
  }

  lemma {:induction false} AsciiLength(word: string)
    requires IsAscii(word)
    ensures ByteLength(word) == |word|
  {
    if word != [] {
      AsciiLength(word[..|word| - 1]);
    }
  }

  lemma LabelOfWord(t: text, line: nat)
    requires IsLabel(t)
    ensures Label(TextWord(t), line) == Ok(t)
  {
    var word := TextWord(t);
    assert forall k :: 0 <= k < |word| ==> word[k] as int == t[k] && LabelChar(word[k]);
    AsciiLength(word);
    assert Ascii(word) == t;
  }

  lemma LabelIsText(word: string, line: nat)
    requires Label(word, line).Ok?
    ensures IsLabel(Label(word, line).value) && word == TextWord(Label(word, line).value)
  {
    AsciiLength(word);
    var t := Label(word, line).value;
    assert |t| == |word| && forall k :: 0 <= k < |word| ==> t[k] == word[k] as int && LabelChar(word[k]);
    forall k | 0 <= k < |t|
      ensures t[k] < 0x80 && LabelChar(t[k] as char)
    {
      assert t[k] as char == word[k];
    }
  }

  // ---- what a member's line says ----

  predicate Nameable(isKey: key -> bool, m: Member) {
    isKey(m.key) && IsLabel(m.id)
  }

  function MemberWords(m: Member): seq<string>
    requires IsLabel(m.id)
  {
    ["member", NumberWord(m.index), NumberWord(m.competence), Hex(m.key), TextWord(m.id)]
  }

  lemma MemberOfWords(isKey: key -> bool, m: Member, line: nat)
    requires Nameable(isKey, m)
    ensures MemberOf(isKey, MemberWords(m), line) == Ok(m)
  {
    NumberInExactly(NumberWord(m.index), 0xFFFF, line, m.index);
    NumberInExactly(NumberWord(m.competence), 0xFF, line, m.competence);
    HexReadsExactly(Hex(m.key), 32, m.key);
    LabelOfWord(m.id, line);
  }

  lemma MemberIsItsWords(isKey: key -> bool, words: seq<string>, line: nat)
    requires words != [] && words[0] == "member" && MemberOf(isKey, words, line).Ok?
    ensures var m := MemberOf(isKey, words, line).value;
            Nameable(isKey, m) && words == MemberWords(m)
  {
    var m := MemberOf(isKey, words, line).value;
    NumberInExactly(words[1], 0xFFFF, line, m.index);
    NumberInExactly(words[2], 0xFF, line, m.competence);
    HexReadsExactly(words[3], 32, m.key);
    LabelIsText(words[4], line);
  }

  // ---- what a content's lines are ----

  /** What a file has said so far can only be said so: the version is the one there
      is, the profile and the capacity are the fleet's own, and every member can be
      named. */
  ghost predicate Sayable(isKey: key -> bool, c: Content) {
    (c.version.Some? ==> c.version.value == MANIFEST_VERSION)
    && (c.phyProfile.Some? ==> c.phyProfile.value == ProfileBytes())
    && (c.heardCapacity.Some? ==> c.heardCapacity.value == CAPACITY)
    && forall i :: 0 <= i < |c.members| ==> Nameable(isKey, c.members[i])
  }

  function NameOf(d: Directive): string {
    match d
    case Version => "version"
    case Epoch => "epoch"
    case ValidFrom => "valid-from"
    case ValidUntil => "valid-until"
    case GroupKey => "group-key"
    case ByzantineBps => "byzantine-bps"
    case MaxCompetenceRatio => "max-competence-ratio"
    case PhyProfile => "phy-profile"
    case HeardCapacity => "heard-capacity"
    case MemberLine => "member"
    case Issuer => "issuer"
    case SignatureLine => "signature"
    case Other => ""
  }

  lemma NamesItself(word: string, d: Directive)
    requires d != Other
    ensures DirectiveOf(word) == d <==> word == NameOf(d)
  {
  }

  /** The word that gives this directive its value, if it has been given one. */
  function WordFor(c: Content, d: Directive): Option<string> {
    match d
    case Version => if c.version == None then None else Some(NumberWord(c.version.value))
    case Epoch => if c.epoch == None then None else Some(NumberWord(c.epoch.value))
    case ValidFrom => if c.validFrom == None then None else Some(NumberWord(c.validFrom.value))
    case ValidUntil => if c.validUntil == None then None else Some(NumberWord(c.validUntil.value))
    case GroupKey => if c.groupKeyId == None then None else Some(Hex(c.groupKeyId.value))
    case ByzantineBps => if c.byzantineBps == None then None else Some(NumberWord(c.byzantineBps.value))
    case MaxCompetenceRatio =>
      if c.maxCompetenceRatio == None then None else Some(NumberWord(c.maxCompetenceRatio.value))
    case PhyProfile => if c.phyProfile == None then None else Some(PROFILE)
    case HeardCapacity =>
      if c.heardCapacity == None then None else Some(NumberWord(c.heardCapacity.value))
    case Issuer => c.issuer
    case SignatureLine => if c.signature == None then None else Some(Hex(c.signature.value))
    case _ => None
  }

  function MembersLines(members: seq<Member>): (r: seq<seq<string>>)
    requires forall i :: 0 <= i < |members| ==> IsLabel(members[i].id)
    ensures |r| == |members|
    ensures forall i :: 0 <= i < |members| ==> r[i] == MemberWords(members[i])
  {
    seq(|members|, i requires 0 <= i < |members| => MemberWords(members[i]))
  }

  /** The lines of this directive that say this content. */
  function Spelled(c: Content, d: Directive): seq<seq<string>>
    requires forall i :: 0 <= i < |c.members| ==> IsLabel(c.members[i].id)
  {
    if d == MemberLine then MembersLines(c.members)
    else if WordFor(c, d) == None then []
    else [[NameOf(d), WordFor(c, d).value]]
  }

  // ---- every line accounts for one thing ----

  lemma NumberSays(words: seq<string>, max: nat, line: nat, n: nat)
    ensures Number(words, max, line) == Ok(n)
       <==> |words| == 2 && words[1] == NumberWord(n) && n <= max
  {
    if |words| == 2 {
      NumberInExactly(words[1], max, line, n);
    }
  }

  lemma HexadecimalSays(words: seq<string>, n: nat, line: nat, bytes: seq<byte>)
    requires |bytes| == n
    ensures Hexadecimal(words, n, line) == Ok(bytes) <==> |words| == 2 && words[1] == Hex(bytes)
  {
    if |words| == 2 {
      HexReadsExactly(words[1], n, bytes);
    }
  }

  /** The content without what this directive gave it. */
  function Without(c: Content, d: Directive): Content {
    match d
    case Version => c.(version := None)
    case Epoch => c.(epoch := None)
    case ValidFrom => c.(validFrom := None)
    case ValidUntil => c.(validUntil := None)
    case GroupKey => c.(groupKeyId := None)
    case ByzantineBps => c.(byzantineBps := None)
    case MaxCompetenceRatio => c.(maxCompetenceRatio := None)
    case PhyProfile => c.(phyProfile := None)
    case HeardCapacity => c.(heardCapacity := None)
    case Issuer => c.(issuer := None)
    case SignatureLine => c.(signature := None)
    case _ => c
  }

  lemma WithoutSpells(c: Content, d: Directive, other: Directive)
    ensures WordFor(Without(c, d), d) == None
    ensures other != d ==> WordFor(Without(c, d), other) == WordFor(c, other)
    ensures Without(c, d).members == c.members
  {
  }

  /** A line other than a member's gives its directive a value that it did not have,
      by the only word for it, and touches no other. */
  predicate Gives(c: Content, d: Directive, words: seq<string>, next: Content) {
    d != Other && d != MemberLine && c == Without(next, d)
    && |words| == 2 && WordFor(next, d) == Some(words[1])
  }

  lemma SmallNumberGives(isKey: key -> bool, c: Content, words: seq<string>, line: nat)
    requires Sayable(isKey, c) && words != [] && Applied(isKey, c, words, line).Ok?
    requires DirectiveOf(words[0]) in {Version, Epoch, HeardCapacity}
    ensures Gives(c, DirectiveOf(words[0]), words, Applied(isKey, c, words, line).value)
    ensures Sayable(isKey, Applied(isKey, c, words, line).value)
  {
    var next := Applied(isKey, c, words, line).value;
    match DirectiveOf(words[0])
    case Version => NumberSays(words, 0xFFFF_FFFF, line, next.version.value);
    case Epoch => NumberSays(words, 0xFFFF_FFFF, line, next.epoch.value);
    case HeardCapacity => NumberSays(words, 0xFFFF_FFFF, line, next.heardCapacity.value);
    case _ =>
  }

  lemma NumberGives(isKey: key -> bool, c: Content, words: seq<string>, line: nat)
    requires Sayable(isKey, c) && words != [] && Applied(isKey, c, words, line).Ok?
    requires DirectiveOf(words[0]) in {ValidFrom, ValidUntil, ByzantineBps, MaxCompetenceRatio}
    ensures Gives(c, DirectiveOf(words[0]), words, Applied(isKey, c, words, line).value)
    ensures Sayable(isKey, Applied(isKey, c, words, line).value)
  {
    var next := Applied(isKey, c, words, line).value;
    match DirectiveOf(words[0])
    case ValidFrom => NumberSays(words, U64_MAX, line, next.validFrom.value);
    case ValidUntil => NumberSays(words, U64_MAX, line, next.validUntil.value);
    case ByzantineBps => NumberSays(words, 0xFFFF_FFFF, line, next.byzantineBps.value);
    case MaxCompetenceRatio => NumberSays(words, 0xFFFF_FFFF, line, next.maxCompetenceRatio.value);
    case _ =>
  }

  lemma WordGives(isKey: key -> bool, c: Content, words: seq<string>, line: nat)
    requires Sayable(isKey, c) && words != [] && Applied(isKey, c, words, line).Ok?
    requires DirectiveOf(words[0]) in {GroupKey, PhyProfile, Issuer, SignatureLine}
    requires c.signature == None
    ensures Gives(c, DirectiveOf(words[0]), words, Applied(isKey, c, words, line).value)
    ensures Sayable(isKey, Applied(isKey, c, words, line).value)
  {
    var next := Applied(isKey, c, words, line).value;
    match DirectiveOf(words[0])
    case GroupKey => HexadecimalSays(words, 32, line, next.groupKeyId.value);
    case SignatureLine => HexadecimalSays(words, 64, line, next.signature.value);
    case _ =>
  }

  lemma GivesSpelled(c: Content, given: Directive, words: seq<string>, next: Content, d: Directive)
    requires words != [] && given == DirectiveOf(words[0]) && Gives(c, given, words, next)
    requires forall i :: 0 <= i < |c.members| ==> IsLabel(c.members[i].id)
    ensures next.members == c.members
    ensures Spelled(next, d) == Spelled(c, d) + if given == d then [words] else []
  {
    WithoutSpells(next, given, d);
    NamesItself(words[0], given);
    assert words == [words[0], words[1]];
    assert Spelled(c, d) + [] == Spelled(c, d);
  }

  lemma MemberJoins(isKey: key -> bool, c: Content, words: seq<string>, line: nat)
    requires Sayable(isKey, c) && words != [] && DirectiveOf(words[0]) == MemberLine
    requires Applied(isKey, c, words, line).Ok?
    ensures MemberOf(isKey, words, line).Ok?
    ensures var m := MemberOf(isKey, words, line).value;
            Nameable(isKey, m) && words == MemberWords(m)
            && Applied(isKey, c, words, line).value == c.(members := c.members + [m])
  {
    MemberIsItsWords(isKey, words, line);
    ManifestOrder.SeatedExactly(c, MemberOf(isKey, words, line).value, line);
  }

  lemma LinesSnoc(members: seq<Member>, m: Member)
    requires (forall i :: 0 <= i < |members| ==> IsLabel(members[i].id)) && IsLabel(m.id)
    ensures forall i :: 0 <= i <= |members| ==> IsLabel((members + [m])[i].id)
    ensures MembersLines(members + [m]) == MembersLines(members) + [MemberWords(m)]
  {
  }

  lemma MemberSpelled(isKey: key -> bool, c: Content, m: Member, d: Directive)
    requires Sayable(isKey, c) && Nameable(isKey, m)
    ensures Sayable(isKey, c.(members := c.members + [m]))
    ensures Spelled(c.(members := c.members + [m]), d)
         == Spelled(c, d) + if d == MemberLine then [MemberWords(m)] else []
  {
    if d == MemberLine {
      LinesSnoc(c.members, m);
    } else {
      assert Spelled(c, d) + [] == Spelled(c, d);
    }
  }

  /** A line that is read adds itself, under its directive, to what has been said,
      and nothing else. */
  lemma StepSays(isKey: key -> bool, c: Content, words: seq<string>, line: nat, d: Directive)
    requires Sayable(isKey, c) && words != [] && Step(isKey, c, words, line).Ok?
    ensures Sayable(isKey, Step(isKey, c, words, line).value)
    ensures Spelled(Step(isKey, c, words, line).value, d)
         == Spelled(c, d) + if DirectiveOf(words[0]) == d then [words] else []
  {
    var next := Step(isKey, c, words, line).value;
    var given := DirectiveOf(words[0]);
    if given == MemberLine {
      MemberJoins(isKey, c, words, line);
      MemberSpelled(isKey, c, MemberOf(isKey, words, line).value, d);
    } else {
      if given in {GroupKey, PhyProfile, Issuer, SignatureLine} {
        WordGives(isKey, c, words, line);
      } else if given in {Version, Epoch, HeardCapacity} {
        SmallNumberGives(isKey, c, words, line);
      } else {
        NumberGives(isKey, c, words, line);
      }
      GivesSpelled(c, given, words, next, d);
    }
  }

  /** The lines of a file that begin with this directive, in the order they stand. */
  function Under(d: Directive, lines: seq<seq<string>>): seq<seq<string>> {
    if lines == [] then []
    else
      (if lines[0] != [] && DirectiveOf(lines[0][0]) == d then [lines[0]] else []) + Under(d, lines[1..])
  }

  lemma UnderCons(d: Directive, lines: seq<seq<string>>)
    requires lines != []
    ensures Under(d, lines) == Under(d, [lines[0]]) + Under(d, lines[1..])
  {
    assert [lines[0]][1..] == [];
    assert Under(d, []) == [];
  }

  lemma UnderOne(d: Directive, words: seq<string>)
    ensures Under(d, [words]) == if words != [] && DirectiveOf(words[0]) == d then [words] else []
  {
    assert [words][1..] == [] && Under(d, []) == [];
  }

  lemma FirstSays(isKey: key -> bool, c: Content, words: seq<string>, line: nat, next: Content, d: Directive)
    requires Sayable(isKey, c) && Step(isKey, c, words, line) == Ok(next)
    ensures Sayable(isKey, next)
    ensures Spelled(next, d) == Spelled(c, d) + Under(d, [words])
  {
    UnderOne(d, words);
    if words == [] {
      assert next == c;
      assert Spelled(c, d) + [] == Spelled(c, d);
    } else {
      StepSays(isKey, c, words, line, d);
    }
  }

  lemma {:induction false} ReadingSays(
    isKey: key -> bool, c: Content, lines: seq<seq<string>>, line: nat, d: Directive)
    requires Sayable(isKey, c) && Reading(isKey, c, lines, line).Ok?
    ensures Sayable(isKey, Reading(isKey, c, lines, line).value)
    ensures Spelled(Reading(isKey, c, lines, line).value, d) == Spelled(c, d) + Under(d, lines)
    decreases |lines|
  {
    if lines != [] {
      var next := Step(isKey, c, lines[0], line).value;
      var first := Under(d, [lines[0]]);
      UnderCons(d, lines);
      FirstSays(isKey, c, lines[0], line, next, d);
      ReadingSays(isKey, next, lines[1..], line + 1, d);
      Associative(Spelled(c, d), first, Under(d, lines[1..]));
    }
  }

  // ---- what a manifest is held to ----

  /** What makes a manifest lawful, said of the manifest itself. */
  ghost predicate LawfulManifest(isKey: key -> bool, m: Manifest) {
    m.validFrom < m.validUntil && m.phyProfile == ProfileBytes() && m.heardCapacity == CAPACITY
    && 1 <= |m.members| <= CAPACITY
    && (forall i :: 0 <= i < |m.members| ==> m.members[i].index == i && Nameable(isKey, m.members[i]))
    && ManifestOrder.Apart(m.members)
    && Quorum.Acceptable(Seats(m.members), m.byzantineBps, m.maxCompetenceRatio)
  }

  /** The content that says this manifest in full. */
  function ContentOf(m: Manifest, members: seq<Member>, issuer: Option<string>): Content {
    Content(Some(MANIFEST_VERSION), Some(m.epoch), Some(m.validFrom), Some(m.validUntil),
            Some(m.groupKeyId), Some(m.byzantineBps), Some(m.maxCompetenceRatio),
            Some(m.phyProfile), Some(m.heardCapacity), members, issuer, Some(m.signature))
  }

  predicate IsIssuer(issuer: Option<string>, name: string) {
    name == if issuer == None then [] else issuer.value
  }

  lemma SettledIs(c: Content)
    requires Finished(c).Ok?
    ensures var m := Finished(c).value;
            Missing(c) == None && m.members == SortedByIndex(c.members)
            && m.validFrom < m.validUntil && 1 <= |c.members| <= CAPACITY
            && FirstGap(m.members) == |m.members|
            && Quorum.Acceptable(Seats(m.members), m.byzantineBps, m.maxCompetenceRatio)
            && IsIssuer(c.issuer, m.issuer)
  {
    ManifestOrder.SortedIs(c.members);
    ManifestOrder.SameElements(c.members, SortedByIndex(c.members));
  }

  lemma FinishedIsContent(c: Content)
    requires Finished(c).Ok? && c.signature.Some? && c.version == Some(MANIFEST_VERSION)
    ensures c == ContentOf(Finished(c).value, c.members, c.issuer)
  {
    SettledIs(c);
  }

  lemma FinishedIsLawful(isKey: key -> bool, c: Content)
    requires Finished(c).Ok? && Sayable(isKey, c) && ManifestOrder.Apart(c.members)
    ensures LawfulManifest(isKey, Finished(c).value)
    ensures multiset(Finished(c).value.members) == multiset(c.members)
  {
    var m := Finished(c).value;
    SettledIs(c);
    ManifestOrder.SortedIs(c.members);
    ManifestOrder.ApartAnyOrder(c.members, m.members);
    ManifestOrder.SameElements(c.members, m.members);
    forall i | 0 <= i < |m.members|
      ensures Nameable(isKey, m.members[i])
    {
      assert m.members[i] in c.members;
    }
  }

  /** These lines say this manifest: one line for each of its terms and one for its
      signature, by the one word for the value; one for each of its members; at most
      one for its issuer; and no other. */
  ghost predicate SaysManifest(isKey: key -> bool, lines: seq<seq<string>>, m: Manifest) {
    exists members: seq<Member>, issuer: Option<string> ::
      SaysAs(isKey, lines, m, members, issuer)
  }

  ghost predicate SaysAs(
    isKey: key -> bool, lines: seq<seq<string>>, m: Manifest, members: seq<Member>, issuer: Option<string>)
  {
    multiset(members) == multiset(m.members) && IsIssuer(issuer, m.issuer)
    && (forall i :: 0 <= i < |members| ==> Nameable(isKey, members[i]))
    && forall d :: Under(d, lines) == Spelled(ContentOf(m, members, issuer), d)
  }

  lemma ReadSaysUnder(isKey: key -> bool, lines: seq<seq<string>>, c: Content, d: Directive)
    requires Reading(isKey, NOTHING, lines, 1) == Ok(c)
    ensures Sayable(isKey, c) && Spelled(c, d) == Under(d, lines)
  {
    ReadingSays(isKey, NOTHING, lines, 1, d);
    assert [] + Under(d, lines) == Under(d, lines);
  }

  lemma ReadSays(isKey: key -> bool, lines: seq<seq<string>>, c: Content)
    requires Reading(isKey, NOTHING, lines, 1) == Ok(c)
    ensures Sayable(isKey, c) && ManifestOrder.Apart(c.members)
    ensures forall d :: Spelled(c, d) == Under(d, lines)
  {
    ManifestOrder.ReadingExactly(isKey, NOTHING, lines, 1);
    ReadSaysUnder(isKey, lines, c, Version);
    forall d
      ensures Spelled(c, d) == Under(d, lines)
    {
      ReadSaysUnder(isKey, lines, c, d);
    }
  }

  /** Whatever parses is lawful, its lines are in order, and they say it: nothing in
      a manifest comes from anywhere but one line of its file, and no line of the
      file is without effect. */
  lemma ParsedIsSaid(isKey: key -> bool, lines: seq<seq<string>>)
    requires ParsedLines(isKey, lines).Ok?
    ensures LawfulManifest(isKey, ParsedLines(isKey, lines).value)
    ensures SaysManifest(isKey, lines, ParsedLines(isKey, lines).value)
    ensures ManifestOrder.WellOrdered(lines)
  {
    var c := Reading(isKey, NOTHING, lines, 1).value;
    var m := ParsedLines(isKey, lines).value;
    ReadSays(isKey, lines, c);
    FinishedIsLawful(isKey, c);
    FinishedIsContent(c);
    ManifestOrder.ParsedIsOrdered(isKey, lines);
    SettledIs(c);
    assert SaysAs(isKey, lines, m, c.members, c.issuer);
  }

  // ---- and everything lawful can be said ----

  /** The first header is the version, unless it has been given already. */
  predicate VersionFirst(given: bool, lines: seq<seq<string>>)
    decreases |lines|
  {
    lines == []
    || (if !ManifestOrder.IsHeaderLine(lines[0]) then VersionFirst(given, lines[1..])
        else (given || DirectiveOf(lines[0][0]) == Version) && VersionFirst(true, lines[1..]))
  }

  /** What has been given so far is what `full` gives, and there are no members. */
  predicate PartOf(c: Content, full: Content) {
    c.members == [] && full.members == []
    && (c.version == None || c.version == full.version)
    && (c.epoch == None || c.epoch == full.epoch)
    && (c.validFrom == None || c.validFrom == full.validFrom)
    && (c.validUntil == None || c.validUntil == full.validUntil)
    && (c.groupKeyId == None || c.groupKeyId == full.groupKeyId)
    && (c.byzantineBps == None || c.byzantineBps == full.byzantineBps)
    && (c.maxCompetenceRatio == None || c.maxCompetenceRatio == full.maxCompetenceRatio)
    && (c.phyProfile == None || c.phyProfile == full.phyProfile)
    && (c.heardCapacity == None || c.heardCapacity == full.heardCapacity)
    && (c.issuer == None || c.issuer == full.issuer)
    && (c.signature == None || c.signature == full.signature)
  }

  /** The content once this directive has given it what it gives `full`. */
  function Filled(c: Content, full: Content, d: Directive): Content {
    match d
    case Version => c.(version := full.version)
    case Epoch => c.(epoch := full.epoch)
    case ValidFrom => c.(validFrom := full.validFrom)
    case ValidUntil => c.(validUntil := full.validUntil)
    case GroupKey => c.(groupKeyId := full.groupKeyId)
    case ByzantineBps => c.(byzantineBps := full.byzantineBps)
    case MaxCompetenceRatio => c.(maxCompetenceRatio := full.maxCompetenceRatio)
    case PhyProfile => c.(phyProfile := full.phyProfile)
    case HeardCapacity => c.(heardCapacity := full.heardCapacity)
    case Issuer => c.(issuer := full.issuer)
    case SignatureLine => c.(signature := full.signature)
    case _ => c
  }

  lemma FilledSpells(c: Content, full: Content, d: Directive, other: Directive)
    requires PartOf(c, full)
    ensures PartOf(Filled(c, full, d), full)
    ensures WordFor(Filled(c, full, d), other)
         == if other == d then WordFor(full, d) else WordFor(c, other)
  {
  }

  lemma SmallNumberFills(isKey: key -> bool, c: Content, full: Content, words: seq<string>, d: Directive)
    requires Sayable(isKey, full) && |words| == 2 && words[0] == NameOf(d)
    requires d in {Version, Epoch, HeardCapacity}
    requires WordFor(c, d) == None && WordFor(full, d) == Some(words[1])
    ensures Applied(isKey, c, words, 0) == Ok(Filled(c, full, d))
  {
    NamesItself(words[0], d);
    match d
    case Version => NumberSays(words, 0xFFFF_FFFF, 0, full.version.value);
    case Epoch => NumberSays(words, 0xFFFF_FFFF, 0, full.epoch.value);
    case HeardCapacity => NumberSays(words, 0xFFFF_FFFF, 0, full.heardCapacity.value);
    case _ =>
  }

  lemma NumberFills(isKey: key -> bool, c: Content, full: Content, words: seq<string>, d: Directive)
    requires |words| == 2 && words[0] == NameOf(d)
    requires d in {ValidFrom, ValidUntil, ByzantineBps, MaxCompetenceRatio}
    requires WordFor(c, d) == None && WordFor(full, d) == Some(words[1])
    ensures Applied(isKey, c, words, 0) == Ok(Filled(c, full, d))
  {
    NamesItself(words[0], d);
    match d
    case ValidFrom => NumberSays(words, U64_MAX, 0, full.validFrom.value);
    case ValidUntil => NumberSays(words, U64_MAX, 0, full.validUntil.value);
    case ByzantineBps => NumberSays(words, 0xFFFF_FFFF, 0, full.byzantineBps.value);
    case MaxCompetenceRatio => NumberSays(words, 0xFFFF_FFFF, 0, full.maxCompetenceRatio.value);
    case _ =>
  }

  lemma WordFills(isKey: key -> bool, c: Content, full: Content, words: seq<string>, d: Directive)
    requires Sayable(isKey, full) && |words| == 2 && words[0] == NameOf(d)
    requires d in {GroupKey, PhyProfile, Issuer, SignatureLine}
    requires WordFor(c, d) == None && WordFor(full, d) == Some(words[1])
    ensures Applied(isKey, c, words, 0) == Ok(Filled(c, full, d))
  {
    NamesItself(words[0], d);
    match d
    case GroupKey => HexadecimalSays(words, 32, 0, full.groupKeyId.value);
    case SignatureLine => HexadecimalSays(words, 64, 0, full.signature.value);
    case _ =>
  }

  /** A line that says what `full` says, where nothing was said yet, is read. */
  lemma LineFills(isKey: key -> bool, c: Content, full: Content, words: seq<string>, d: Directive)
    requires Sayable(isKey, full) && PartOf(c, full) && |words| == 2 && words[0] == NameOf(d)
    requires d != Other && d != MemberLine && c.signature == None
    requires IsHeader(d) && d != Version ==> c.version.Some?
    requires WordFor(c, d) == None && WordFor(full, d) == Some(words[1])
    ensures ManifestOrder.Said(isKey, c, words) == Some(Filled(c, full, d))
  {
    NamesItself(words[0], d);
    if d in {GroupKey, PhyProfile, Issuer, SignatureLine} {
      WordFills(isKey, c, full, words, d);
    } else if d in {Version, Epoch, HeardCapacity} {
      SmallNumberFills(isKey, c, full, words, d);
    } else {
      NumberFills(isKey, c, full, words, d);
    }
  }

  /** What has been given and what the lines will give make up what `full` gives. */
  ghost predicate Completes(c: Content, lines: seq<seq<string>>, full: Content) {
    PartOf(c, full)
    && forall d :: d != MemberLine ==> Spelled(c, d) + Under(d, lines) == Spelled(full, d)
  }

  lemma FirstOf(c: Content, lines: seq<seq<string>>, full: Content)
    requires Completes(c, lines, full) && lines != [] && lines[0] != []
    requires !ManifestOrder.IsMember(lines[0])
    ensures var d := DirectiveOf(lines[0][0]);
            d != Other && |lines[0]| == 2 && lines[0][0] == NameOf(d)
            && WordFor(c, d) == None && WordFor(full, d) == Some(lines[0][1])
  {
    var d := DirectiveOf(lines[0][0]);
    var later := Under(d, lines[1..]);
    assert Under(d, lines) == [lines[0]] + later;
    assert Spelled(c, d) + Under(d, lines) == Spelled(full, d);
    assert |Spelled(full, d)| <= 1;
    assert Spelled(full, d)[0] == lines[0];
  }

  lemma CompletesRest(c: Content, lines: seq<seq<string>>, full: Content)
    requires Completes(c, lines, full) && lines != [] && lines[0] != []
    requires !ManifestOrder.IsMember(lines[0])
    ensures Completes(Filled(c, full, DirectiveOf(lines[0][0])), lines[1..], full)
  {
    var given := DirectiveOf(lines[0][0]);
    FirstOf(c, lines, full);
    forall d | d != MemberLine
      ensures Spelled(Filled(c, full, given), d) + Under(d, lines[1..]) == Spelled(full, d)
    {
      FilledSpells(c, full, given, d);
      assert Spelled(c, d) + Under(d, lines) == Spelled(full, d);
      if d == given {
        assert Under(d, lines) == [lines[0]] + Under(d, lines[1..]);
        assert [] + Under(d, lines) == Under(d, lines);
        assert Under(d, lines[1..]) == [];
      } else {
        assert Under(d, lines) == Under(d, lines[1..]);
      }
    }
    FilledSpells(c, full, given, given);
  }

  lemma SkipsRest(c: Content, lines: seq<seq<string>>, full: Content)
    requires Completes(c, lines, full) && lines != []
    requires lines[0] == [] || ManifestOrder.IsMember(lines[0])
    ensures Completes(c, lines[1..], full)
  {
    forall d | d != MemberLine
      ensures Spelled(c, d) + Under(d, lines[1..]) == Spelled(full, d)
    {
      assert Under(d, lines) == Under(d, lines[1..]);
    }
  }

  lemma FieldLeft(c: Content, full: Content, d: Directive)
    requires Completes(c, [], full) && d != MemberLine
    ensures WordFor(c, d) == None ==> WordFor(full, d) == None
  {
    assert Spelled(c, d) + Under(d, []) == Spelled(full, d);
  }

  lemma NothingLeft(c: Content, full: Content)
    requires Completes(c, [], full)
    ensures c == full
  {
    FieldLeft(c, full, Version);
    FieldLeft(c, full, Epoch);
    FieldLeft(c, full, ValidFrom);
    FieldLeft(c, full, ValidUntil);
    FieldLeft(c, full, GroupKey);
    FieldLeft(c, full, ByzantineBps);
    FieldLeft(c, full, MaxCompetenceRatio);
    FieldLeft(c, full, PhyProfile);
    FieldLeft(c, full, HeardCapacity);
    FieldLeft(c, full, Issuer);
    FieldLeft(c, full, SignatureLine);
  }

  lemma FilledIs(c: Content, full: Content, d: Directive)
    requires PartOf(c, full) && WordFor(full, d).Some?
    ensures Filled(c, full, d).version.Some? <==> c.version.Some? || d == Version
    ensures Filled(c, full, d).signature.Some? <==> c.signature.Some? || d == SignatureLine
  {
  }

  lemma NextLine(isKey: key -> bool, c: Content, lines: seq<seq<string>>, full: Content, seated: bool)
    requires Sayable(isKey, full) && Completes(c, lines, full)
    requires lines != [] && lines[0] != [] && !ManifestOrder.IsMember(lines[0])
    requires ManifestOrder.InOrder(seated, c.signature.Some?, lines)
    requires VersionFirst(c.version.Some?, lines)
    ensures var next := Filled(c, full, DirectiveOf(lines[0][0]));
            ManifestOrder.Said(isKey, c, lines[0]) == Some(next)
            && ManifestOrder.InOrder(seated, next.signature.Some?, lines[1..])
            && VersionFirst(next.version.Some?, lines[1..])
  {
    var d := DirectiveOf(lines[0][0]);
    FirstOf(c, lines, full);
    LineFills(isKey, c, full, lines[0], d);
    FilledIs(c, full, d);
  }

  lemma {:induction false} SpokenInFull(
    isKey: key -> bool, c: Content, lines: seq<seq<string>>, full: Content, seated: bool)
    requires Sayable(isKey, full) && Completes(c, lines, full)
    requires ManifestOrder.InOrder(seated, c.signature.Some?, lines)
    requires VersionFirst(c.version.Some?, lines)
    ensures ManifestOrder.Spoken(isKey, c, lines) == Some(full)
    decreases |lines|
  {
    if lines == [] {
      NothingLeft(c, full);
    } else if lines[0] == [] || ManifestOrder.IsMember(lines[0]) {
      SkipsRest(c, lines, full);
      SpokenInFull(isKey, c, lines[1..], full, seated || ManifestOrder.IsMember(lines[0]));
    } else {
      NextLine(isKey, c, lines, full, seated);
      CompletesRest(c, lines, full);
      SpokenInFull(isKey, Filled(c, full, DirectiveOf(lines[0][0])), lines[1..], full, seated);
    }
  }

  // ---- exactly ----

  lemma {:induction false} MembersUnder(lines: seq<seq<string>>)
    ensures ManifestOrder.MemberLines(lines) == Under(MemberLine, lines)
  {
    if lines != [] {
      MembersUnder(lines[1..]);
    }
  }

  lemma TailLines(members: seq<Member>)
    requires members != [] && forall i :: 0 <= i < |members| ==> IsLabel(members[i].id)
    ensures forall i :: 0 <= i < |members[1..]| ==> IsLabel(members[1..][i].id)
    ensures MembersLines(members)[1..] == MembersLines(members[1..])
  {
    assert forall i :: 0 <= i < |members[1..]| ==> members[1..][i] == members[i + 1];
  }

  lemma {:induction false} MembersRead(isKey: key -> bool, members: seq<Member>)
    requires forall i :: 0 <= i < |members| ==> IsLabel(members[i].id)
    requires forall i :: 0 <= i < |members| ==> Nameable(isKey, members[i])
    ensures var f := ManifestOrder.Reader(isKey);
            ManifestOrder.AllSome(f, MembersLines(members))
            && ManifestOrder.Values(f, MembersLines(members)) == members
    decreases |members|
  {
    var lines := MembersLines(members);
    if members != [] {
      MemberOfWords(isKey, members[0], 0);
      assert forall i :: 0 <= i < |members[1..]| ==> members[1..][i] == members[i + 1];
      MembersRead(isKey, members[1..]);
      TailLines(members);
      ManifestOrder.AllSomeCons(ManifestOrder.Reader(isKey), lines);
      assert members == [members[0]] + members[1..];
    }
  }

  lemma MembersCanJoin(isKey: key -> bool, m: Manifest, members: seq<Member>)
    requires LawfulManifest(isKey, m) && multiset(members) == multiset(m.members)
    requires forall i :: 0 <= i < |members| ==> IsLabel(members[i].id)
    requires forall i :: 0 <= i < |members| ==> Nameable(isKey, members[i])
    ensures ManifestOrder.CanJoin(ManifestOrder.Reader(isKey), [], MembersLines(members))
    ensures [] + ManifestOrder.Values(ManifestOrder.Reader(isKey), MembersLines(members)) == members
  {
    MembersRead(isKey, members);
    ManifestOrder.ApartAnyOrder(m.members, members);
    assert [] + members == members;
  }

  lemma NothingSpelled(d: Directive)
    ensures Spelled(NOTHING, d) == []
  {
  }

  lemma SpelledWithoutMembers(m: Manifest, members: seq<Member>, issuer: Option<string>, d: Directive)
    requires d != MemberLine
    requires forall i :: 0 <= i < |members| ==> IsLabel(members[i].id)
    ensures Spelled(ContentOf(m, members, issuer), d) == Spelled(ContentOf(m, [], issuer), d)
  {
  }

  lemma StartsComplete(isKey: key -> bool, lines: seq<seq<string>>, m: Manifest, members: seq<Member>,
                       issuer: Option<string>)
    requires SaysAs(isKey, lines, m, members, issuer)
    ensures Completes(NOTHING, lines, ContentOf(m, [], issuer))
  {
    forall d | d != MemberLine
      ensures Spelled(NOTHING, d) + Under(d, lines) == Spelled(ContentOf(m, [], issuer), d)
    {
      NothingSpelled(d);
      SpelledWithoutMembers(m, members, issuer, d);
      assert [] + Under(d, lines) == Under(d, lines);
    }
  }

  lemma MembersSaid(isKey: key -> bool, lines: seq<seq<string>>, m: Manifest, members: seq<Member>,
                    issuer: Option<string>)
    requires SaysAs(isKey, lines, m, members, issuer)
    ensures ManifestOrder.MemberLines(lines) == MembersLines(members)
  {
    MembersUnder(lines);
    assert Under(MemberLine, lines) == Spelled(ContentOf(m, members, issuer), MemberLine);
  }

  /** A lawful manifest's lines, in order and the version first, are read as it. */
  lemma SaidIsRead(isKey: key -> bool, lines: seq<seq<string>>, m: Manifest, members: seq<Member>,
                   issuer: Option<string>)
    requires LawfulManifest(isKey, m) && SaysAs(isKey, lines, m, members, issuer)
    requires ManifestOrder.WellOrdered(lines) && VersionFirst(false, lines)
    ensures Reading(isKey, NOTHING, lines, 1) == Ok(ContentOf(m, members, issuer))
  {
    ManifestOrder.InOrderExactly(false, false, lines);
    StartsComplete(isKey, lines, m, members, issuer);
    MembersSaid(isKey, lines, m, members, issuer);
    SpokenInFull(isKey, NOTHING, lines, ContentOf(m, [], issuer), false);
    MembersCanJoin(isKey, m, members);
    ManifestOrder.ReadingExactly(isKey, NOTHING, lines, 1);
  }

  lemma {:induction false} NoGap(members: seq<Member>)
    requires forall i :: 0 <= i < |members| ==> members[i].index == i
    ensures FirstGap(members) == |members|
  {
    if members != [] {
      NoGap(members[..|members| - 1]);
    }
  }

  lemma LawfulFinishes(isKey: key -> bool, m: Manifest, members: seq<Member>, issuer: Option<string>)
    requires LawfulManifest(isKey, m) && multiset(members) == multiset(m.members)
    requires IsIssuer(issuer, m.issuer)
    ensures Finished(ContentOf(m, members, issuer)) == Ok(m)
  {
    ManifestOrder.ApartAnyOrder(m.members, members);
    ManifestOrder.SortedIs(members);
    ManifestOrder.ApartAnyOrder(m.members, SortedByIndex(members));
    ManifestOrder.OneOrder(m.members, SortedByIndex(members));
    ManifestOrder.SameElements(members, m.members);
    NoGap(m.members);
  }

  lemma LawfulParses(isKey: key -> bool, lines: seq<seq<string>>, m: Manifest)
    requires LawfulManifest(isKey, m) && SaysManifest(isKey, lines, m)
    requires ManifestOrder.WellOrdered(lines) && VersionFirst(false, lines)
    ensures ParsedLines(isKey, lines) == Ok(m)
  {
    var members, issuer :| SaysAs(isKey, lines, m, members, issuer);
    SaidIsRead(isKey, lines, m, members, issuer);
    LawfulFinishes(isKey, m, members, issuer);
    assert Read(isKey, lines, true) == Ok(ContentOf(m, members, issuer));
  }

  /** A file is this manifest exactly if the manifest is lawful, the file's lines say
      it, each thing once and by its one word, and they are in order: the version
      before any other header, no header after a member, nothing after the
      signature. */
  lemma ParsesExactly(isKey: key -> bool, lines: seq<seq<string>>, m: Manifest)
    ensures ParsedLines(isKey, lines) == Ok(m)
       <==> LawfulManifest(isKey, m) && SaysManifest(isKey, lines, m)
            && ManifestOrder.WellOrdered(lines) && VersionFirst(false, lines)
  {
    if ParsedLines(isKey, lines) == Ok(m) {
      ParsedIsSaid(isKey, lines);
      ReadHasVersionFirst(isKey, NOTHING, lines, 1);
    }
    if LawfulManifest(isKey, m) && SaysManifest(isKey, lines, m)
      && ManifestOrder.WellOrdered(lines) && VersionFirst(false, lines)
    {
      LawfulParses(isKey, lines, m);
    }
  }

  lemma StepHasVersion(isKey: key -> bool, c: Content, words: seq<string>, line: nat)
    requires words != [] && Step(isKey, c, words, line).Ok?
    ensures ManifestOrder.IsHeaderLine(words) ==>
      (c.version.Some? || DirectiveOf(words[0]) == Version) && Step(isKey, c, words, line).value.version.Some?
    ensures !ManifestOrder.IsHeaderLine(words) ==>
      Step(isKey, c, words, line).value.version == c.version
  {
  }

  lemma {:induction false} ReadHasVersionFirst(
    isKey: key -> bool, c: Content, lines: seq<seq<string>>, line: nat)
    requires Reading(isKey, c, lines, line).Ok?
    ensures VersionFirst(c.version.Some?, lines)
    decreases |lines|
  {
    if lines != [] {
      if lines[0] != [] {
        StepHasVersion(isKey, c, lines[0], line);
      }
      ReadHasVersionFirst(isKey, Step(isKey, c, lines[0], line).value, lines[1..], line + 1);
    }
  }
}
