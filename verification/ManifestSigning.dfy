/** Signing a manifest's text: what comes out is a manifest, the same one, and
    the signature is over its canonical bytes. */
module ManifestSigning {
  import opened Basics
  import opened HandKey
  import opened ManifestText
  import opened Manifest
  import HandTyping
  import ManifestOrder

  /** The administrator's key: what it signs, its public half, and the digest the
      fingerprint is drawn from. */
  datatype Signer = Signer(sign: seq<byte> -> signature, public: key, hash: key -> key)

  const FINGERPRINT_SYMBOLS: nat := 16

  function Fingerprint(s: Signer): string {
    HandTyping.Written(seq(FINGERPRINT_SYMBOLS, i requires 0 <= i => SymbolAt(s.hash(s.public), i)))
  }

  /** The line is one that signing replaces. */
  predicate Replaced(words: seq<string>) {
    words != [] && (DirectiveOf(words[0]) == Issuer || DirectiveOf(words[0]) == SignatureLine)
  }

  function KeptLines(lines: seq<string>): seq<string> {
    if lines == [] then []
    else (if Replaced(Words(lines[0])) then [] else [lines[0]]) + KeptLines(lines[1..])
  }

  const ISSUER_WORD: string := "issuer"
  const SIGNATURE_WORD: string := "signature"

  function IssuerLine(s: Signer): string {
    ISSUER_WORD + [' '] + Fingerprint(s)
  }

  function SignedLine(sig: signature): string {
    SIGNATURE_WORD + [' '] + Hex(sig)
  }

  /** The manifest a file would be, signature aside: held to all that a parsed
      one is held to. */
  ghost function Unsigned(isKey: key -> bool, lines: seq<seq<string>>): Result<Manifest, ManifestError> {
    match Read(isKey, lines, false)
    case Err(e) => Err(e)
    case Ok(c) => Finished(c)
  }

  ghost function SignedText(isKey: key -> bool, s: Signer, file: string): Result<string, ManifestError> {
    match Unsigned(isKey, Tokens(file))
    case Err(e) => Err(e)
    case Ok(m) =>
      var sig := s.sign(CanonicalBytes(m));
      Ok(Joined(KeptLines(Lines(file)) + [IssuerLine(s), SignedLine(sig)]))
  }

  // ---- the words of the new text ----

  function KeptWords(lines: seq<seq<string>>): seq<seq<string>> {
    if lines == [] then []
    else (if Replaced(lines[0]) then [] else [lines[0]]) + KeptWords(lines[1..])
  }

  function AllWords(lines: seq<string>): (r: seq<seq<string>>)
    ensures |r| == |lines|
  {
    seq(|lines|, i requires 0 <= i < |lines| => Words(lines[i]))
  }

  lemma {:induction false} KeptAgrees(lines: seq<string>)
    ensures AllWords(KeptLines(lines)) == KeptWords(AllWords(lines))
  {
    if lines != [] {
      var rest := lines[1..];
      KeptAgrees(rest);
      assert AllWords(lines)[1..] == AllWords(rest);
      if !Replaced(Words(lines[0])) {
        assert AllWords(KeptLines(lines)) == [Words(lines[0])] + AllWords(KeptLines(rest));
      } else {
        assert KeptLines(lines) == KeptLines(rest);
      }
    }
  }

  lemma {:induction false} KeptAreLines(lines: seq<string>)
    requires forall i :: 0 <= i < |lines| ==> OneLine(lines[i])
    ensures forall i :: 0 <= i < |KeptLines(lines)| ==> OneLine(KeptLines(lines)[i])
  {
    if lines != [] {
      KeptAreLines(lines[1..]);
    }
  }

  lemma {:induction false} WrittenIsWord(symbols: seq<symbol>)
    ensures forall k :: 0 <= k < |HandTyping.Written(symbols)| ==>
      !HandTyping.IsWhitespace(HandTyping.Written(symbols)[k]) && HandTyping.Written(symbols)[k] != '#'
    ensures symbols != [] ==> HandTyping.Written(symbols) != []
  {
    if symbols != [] {
      WrittenIsWord(symbols[..|symbols| - 1]);
      SymbolIsPlain(symbols[|symbols| - 1]);
    }
  }

  lemma SymbolIsPlain(i: symbol)
    ensures !HandTyping.IsWhitespace(ALPHABET[i]) && ALPHABET[i] != '#'
  {
    HandTyping.AlphabetIs(i);
  }

  lemma WordIsOneLine(w: string)
    requires IsWord(w)
    ensures OneLine(w)
  {
  }

  lemma FingerprintIsWord(s: Signer)
    ensures IsWord(Fingerprint(s))
  {
    WrittenIsWord(seq(FINGERPRINT_SYMBOLS, i requires 0 <= i => SymbolAt(s.hash(s.public), i)));
  }

  lemma LiteralsAreWords()
    ensures IsWord(ISSUER_WORD) && DirectiveOf(ISSUER_WORD) == Issuer
    ensures IsWord(SIGNATURE_WORD) && DirectiveOf(SIGNATURE_WORD) == SignatureLine
  {
  }

  lemma NewLines(s: Signer, sig: signature)
    ensures Words(IssuerLine(s)) == [ISSUER_WORD, Fingerprint(s)] && OneLine(IssuerLine(s))
    ensures Words(SignedLine(sig)) == [SIGNATURE_WORD, Hex(sig)] && OneLine(SignedLine(sig))
  {
    LiteralsAreWords();
    FingerprintIsWord(s);
    HexIsPlain(sig);
    TwoWords(ISSUER_WORD, Fingerprint(s));
    TwoWords(SIGNATURE_WORD, Hex(sig));
    WordIsOneLine(ISSUER_WORD);
    WordIsOneLine(Fingerprint(s));
    WordIsOneLine(SIGNATURE_WORD);
    WordIsOneLine(Hex(sig));
  }

  lemma WordsOfJoined(lines: seq<string>)
    requires forall i :: 0 <= i < |lines| ==> OneLine(lines[i])
    ensures Tokens(Joined(lines)) == AllWords(lines)
  {
    JoinedReads(lines);
    forall i | 0 <= i < |lines|
      ensures Words(Stripped(lines)[i]) == Words(lines[i])
    {
      StripCrKeepsWords(lines[i]);
    }
  }

  /** The signed text reads as the kept lines, then the two new ones. */
  lemma NewText(s: Signer, file: string, sig: signature)
    ensures Tokens(Joined(KeptLines(Lines(file)) + [IssuerLine(s), SignedLine(sig)]))
         == KeptWords(Tokens(file)) + [[ISSUER_WORD, Fingerprint(s)], [SIGNATURE_WORD, Hex(sig)]]
  {
    var kept := KeptLines(Lines(file));
    var all := kept + [IssuerLine(s), SignedLine(sig)];
    LinesAreLines(file);
    KeptAreLines(Lines(file));
    NewLines(s, sig);
    WordsOfJoined(all);
    KeptAgrees(Lines(file));
    assert AllWords(all) == AllWords(kept) + [Words(IssuerLine(s)), Words(SignedLine(sig))];
    assert AllWords(Lines(file)) == Tokens(file);
  }

  // ---- reading it ----

  /** The same content, with nobody's name or signature on it. */
  function Bare(c: Content): Content {
    c.(issuer := None, signature := None)
  }

  /** A kept line does to the bare content what it did to the whole. */
  lemma StepBare(isKey: key -> bool, c: Content, words: seq<string>, line: nat, other: nat)
    requires Step(isKey, c, words, line).Ok? && !Replaced(words)
    ensures Step(isKey, Bare(c), words, other) == Ok(Bare(Step(isKey, c, words, line).value))
  {
  }

  /** A replaced line changed nothing else. */
  lemma StepReplaced(isKey: key -> bool, c: Content, words: seq<string>, line: nat)
    requires Step(isKey, c, words, line).Ok? && Replaced(words)
    ensures Bare(Step(isKey, c, words, line).value) == Bare(c)
  {
  }

  lemma {:induction false} KeptReads(
    isKey: key -> bool, c: Content, lines: seq<seq<string>>, line: nat, other: nat)
    requires Reading(isKey, c, lines, line).Ok?
    ensures Reading(isKey, Bare(c), KeptWords(lines), other)
         == Ok(Bare(Reading(isKey, c, lines, line).value))
    decreases |lines|
  {
    if lines != [] {
      var next := Step(isKey, c, lines[0], line).value;
      if Replaced(lines[0]) {
        StepReplaced(isKey, c, lines[0], line);
        KeptReads(isKey, next, lines[1..], line + 1, other);
        assert KeptWords(lines) == KeptWords(lines[1..]);
      } else {
        StepBare(isKey, c, lines[0], line, other);
        KeptReads(isKey, next, lines[1..], line + 1, other + 1);
        assert KeptWords(lines)[0] == lines[0] && KeptWords(lines)[1..] == KeptWords(lines[1..]);
      }
    }
  }

  lemma LastTwoRead(isKey: key -> bool, c: Content, s: Signer, sig: signature, line: nat)
    requires c.issuer == None && c.signature == None
    ensures Reading(isKey, c, [[ISSUER_WORD, Fingerprint(s)], [SIGNATURE_WORD, Hex(sig)]], line)
         == Ok(c.(issuer := Some(Fingerprint(s)), signature := Some(sig)))
  {
    var first, second := [ISSUER_WORD, Fingerprint(s)], [SIGNATURE_WORD, Hex(sig)];
    var named := c.(issuer := Some(Fingerprint(s)));
    LiteralsAreWords();
    HexRoundTrip(sig);
    assert Step(isKey, c, first, line) == Ok(named);
    assert Step(isKey, named, second, line + 1) == Ok(named.(signature := Some(sig)));
    TwoLines(isKey, c, named, named.(signature := Some(sig)), first, second, line);
  }

  lemma TwoLines(isKey: key -> bool, c: Content, d: Content, e: Content, first: seq<string>,
                 second: seq<string>, line: nat)
    requires Step(isKey, c, first, line) == Ok(d) && Step(isKey, d, second, line + 1) == Ok(e)
    ensures Reading(isKey, c, [first, second], line) == Ok(e)
  {
    assert [first, second][1..] == [second] && [second][1..] == [];
    assert Reading(isKey, e, [], line + 2) == Ok(e);
    assert Reading(isKey, d, [second], line + 1) == Ok(e);
  }

  lemma SignedReads(isKey: key -> bool, s: Signer, sig: signature, lines: seq<seq<string>>)
    requires Read(isKey, lines, false).Ok?
    ensures Read(isKey, KeptWords(lines) + [[ISSUER_WORD, Fingerprint(s)], [SIGNATURE_WORD, Hex(sig)]], true)
         == Ok(Read(isKey, lines, false).value.(issuer := Some(Fingerprint(s)), signature := Some(sig)))
  {
    var c := Read(isKey, lines, false).value;
    KeptReads(isKey, NOTHING, lines, 1, 1);
    assert Bare(NOTHING) == NOTHING;
    ManifestOrder.ReadingSplit(
      isKey, NOTHING, KeptWords(lines), [[ISSUER_WORD, Fingerprint(s)], [SIGNATURE_WORD, Hex(sig)]], 1,
      1 + |KeptWords(lines)|);
    LastTwoRead(isKey, Bare(c), s, sig, 1 + |KeptWords(lines)|);
  }

  /** Who signed it is no part of what a manifest says. */
  lemma NamesDoNotMatter(c: Content, issuer: string, sig: signature)
    requires Finished(c).Ok?
    ensures var d := c.(issuer := Some(issuer), signature := Some(sig));
            Finished(d) == Ok(Finished(c).value.(issuer := issuer, signature := sig))
  {
  }

  lemma SameBytes(m: Manifest, issuer: string, sig: signature)
    ensures CanonicalBytes(m.(issuer := issuer, signature := sig)) == CanonicalBytes(m)
  {
    assert HeaderParts(m.(issuer := issuer, signature := sig)) == HeaderParts(m);
  }

  /** If signing a text succeeds, what it returns parses: to the manifest that was
      signed, with the same canonical bytes, the administrator's fingerprint, and
      the signature over those very bytes. */
  lemma SignedTextParses(isKey: key -> bool, s: Signer, file: string)
    requires SignedText(isKey, s, file).Ok?
    ensures Unsigned(isKey, Tokens(file)).Ok?
    ensures var m := Unsigned(isKey, Tokens(file)).value;
            var signed := m.(issuer := Fingerprint(s), signature := s.sign(CanonicalBytes(m)));
            Parsed(isKey, SignedText(isKey, s, file).value) == Ok(signed)
            && CanonicalBytes(signed) == CanonicalBytes(m)
  {
    var c := Read(isKey, Tokens(file), false).value;
    var m := Unsigned(isKey, Tokens(file)).value;
    var sig := s.sign(CanonicalBytes(m));
    NewText(s, file, sig);
    SignedReads(isKey, s, sig, Tokens(file));
    NamesDoNotMatter(c, Fingerprint(s), sig);
    SameBytes(m, Fingerprint(s), sig);
  }

  /** And it verifies under the administrator's key exactly within its window. */
  lemma SignedTextVerifies(
    isKey: key -> bool, s: Signer, verify: (seq<byte>, signature) -> bool, file: string, now: u64)
    requires SignedText(isKey, s, file).Ok?
    requires forall bytes :: verify(bytes, s.sign(bytes))
    ensures Parsed(isKey, SignedText(isKey, s, file).value).Ok?
    ensures var m := Parsed(isKey, SignedText(isKey, s, file).value).value;
            (Verified(verify, m, now) == Ok(()) <==> m.validFrom <= now < m.validUntil)
  {
    SignedTextParses(isKey, s, file);
  }
}
