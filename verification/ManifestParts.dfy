/** Reading a manifest in place, one line after another. */
module ManifestParts {
  import opened Basics
  import opened HandKey
  import opened ManifestText
  import opened Manifest
  import opened ManifestSigning
  import CompactFrame
  import Quorum

  class Parts {
    const isKey: key -> bool
    var content: Content

    constructor (isKey: key -> bool)
      ensures this.isKey == isKey && content == NOTHING
    {
      this.isKey := isKey;
      content := NOTHING;
    }

    /** A member, if nobody has its index, its label or its key. */
    method AddMember(words: seq<string>, line: nat) returns (r: Result<(), ManifestError>)
      requires words != [] && DirectiveOf(words[0]) == MemberLine
      modifies this`content
      ensures match Applied(isKey, old(content), words, line)
              case Err(e) => r == Err(e) && content == old(content)
              case Ok(c) => r == Ok(()) && content == c
    {
      var read := MemberOf(isKey, words, line);
      if read.Err? {
        return Err(read.error);
      }
      var m := read.value;
      for k := 0 to |content.members|
        invariant forall i :: 0 <= i < k ==> content.members[i].index != m.index
      {
        if content.members[k].index == m.index {
          return Err(DuplicateIndex(line, m.index));
        }
      }
      for k := 0 to |content.members|
        invariant forall i :: 0 <= i < k ==> content.members[i].id != m.id
      {
        if content.members[k].id == m.id {
          return Err(DuplicateId(line));
        }
      }
      for k := 0 to |content.members|
        invariant forall i :: 0 <= i < k ==> content.members[i].key != m.key
      {
        if content.members[k].key == m.key {
          return Err(DuplicateKey(line, m.index));
        }
      }
      content := content.(members := content.members + [m]);
      return Ok(());
    }

    /** One directive. */
    method Apply(words: seq<string>, line: nat) returns (r: Result<(), ManifestError>)
      requires words != []
      modifies this`content
      ensures match Applied(isKey, old(content), words, line)
              case Err(e) => r == Err(e) && content == old(content)
              case Ok(c) => r == Ok(()) && content == c
    {
      if DirectiveOf(words[0]) == MemberLine {
        r := AddMember(words, line);
        return;
      }
      var applied := Applied(isKey, content, words, line);
      if applied.Err? {
        return Err(applied.error);
      }
      content := applied.value;
      return Ok(());
    }

    method ReadFile(file: string, wantSignature: bool) returns (r: Result<(), ManifestError>)
      requires content == NOTHING
      modifies this`content
      ensures match Read(isKey, Tokens(file), wantSignature)
              case Err(e) => r == Err(e)
              case Ok(c) => r == Ok(()) && content == c
    {
      var lines := Tokens(file);
      for offset := 0 to |lines|
        invariant Reading(isKey, content, lines[offset..], offset + 1)
               == Reading(isKey, NOTHING, lines, 1)
      {
        var words, line := lines[offset], offset + 1;
        assert lines[offset..][0] == words && lines[offset..][1..] == lines[offset + 1..];
        if words != [] {
          if content.signature.Some? {
            return Err(OutOfOrder(line));
          }
          var d := DirectiveOf(words[0]);
          if IsHeader(d) {
            if content.members != [] {
              return Err(OutOfOrder(line));
            }
            if d != Version && content.version == None {
              return Err(MissingDirective(Version));
            }
          }
          var applied := Apply(words, line);
          if applied.Err? {
            return Err(applied.error);
          }
        }
      }
      if content.version == None {
        return Err(MissingDirective(Version));
      }
      if wantSignature && content.signature == None {
        return Err(MissingDirective(SignatureLine));
      }
      return Ok(());
    }

    /** Everything the structure requires, and the members in index order. */
    method Settle() returns (r: Result<(), ManifestError>)
      modifies this`content
      ensures match Settled(old(content))
              case Err(e) => r == Err(e)
              case Ok(c) => r == Ok(()) && content == c
    {
      var missing := Missing(content);
      if missing.Some? {
        return Err(MissingDirective(missing.value));
      }
      var from, until := content.validFrom.value, content.validUntil.value;
      if until <= from {
        return Err(ValidityInverted(from, until));
      }
      if content.members == [] {
        return Err(NoMembers);
      }
      if |content.members| > CAPACITY {
        return Err(FleetTooLarge(|content.members|));
      }
      content := content.(members := SortedByIndex(content.members));
      var sorted := content.members;
      ghost var gap := FirstGap(sorted);
      for expected := 0 to |sorted|
        invariant expected <= gap
      {
        if sorted[expected].index != expected {
          return Err(IndicesNotContiguous(expected, |sorted|));
        }
      }
      return Ok(());
    }

    method Finish() returns (r: Result<Manifest, ManifestError>)
      modifies this`content
      ensures r == Finished(old(content))
    {
      var settled := Settle();
      if settled.Err? {
        return Err(settled.error);
      }
      var policy := Quorum.WithSettings(Seats(content.members), content.byzantineBps.value,
                                        content.maxCompetenceRatio.value);
      if policy.Err? {
        return Err(PolicyRefused);
      }
      return Ok(Assembled(content));
    }
  }

  method Parse(isKey: key -> bool, file: string) returns (r: Result<Manifest, ManifestError>)
    ensures r == Parsed(isKey, file)
  {
    var parts := new Parts(isKey);
    var read := parts.ReadFile(file, true);
    if read.Err? {
      return Err(read.error);
    }
    r := parts.Finish();
  }

  method Canonical(m: Manifest) returns (out: seq<byte>)
    ensures out == CanonicalBytes(m)
  {
    out := CompactFrame.Concat(HeaderParts(m));
    for i := 0 to |m.members|
      invariant out == CompactFrame.Concat(HeaderParts(m)) + PushedMembers(m.members[..i])
    {
      PushedSnoc(m.members, i);
      out := out + PushedMember(m.members[i]);
    }
    assert m.members[..|m.members|] == m.members;
  }

  lemma PushedSnoc(members: seq<Member>, i: nat)
    requires i < |members|
    ensures PushedMembers(members[..i + 1]) == PushedMembers(members[..i]) + PushedMember(members[i])
  {
    PushedConcat(members[..i], [members[i]]);
    assert members[..i + 1] == members[..i] + [members[i]];
    assert [members[i]][1..] == [];
  }

  lemma {:induction false} PushedConcat(a: seq<Member>, b: seq<Member>)
    ensures PushedMembers(a + b) == PushedMembers(a) + PushedMembers(b)
  {
    if a == [] {
      assert a + b == b;
    } else {
      assert (a + b)[1..] == a[1..] + b;
      PushedConcat(a[1..], b);
    }
  }

  method SignText(isKey: key -> bool, s: Signer, file: string) returns (r: Result<string, ManifestError>)
    ensures r == SignedText(isKey, s, file)
  {
    var parts := new Parts(isKey);
    var read := parts.ReadFile(file, false);
    if read.Err? {
      return Err(read.error);
    }
    var finished := parts.Finish();
    if finished.Err? {
      return Err(finished.error);
    }
    var bytes := Canonical(finished.value);
    var sig := s.sign(bytes);
    var skip := raw => Replaced(Words(raw));
    var out := JoinKept(skip, Lines(file));
    FilteredIsKept(skip, Lines(file));
    JoinedConcat(KeptLines(Lines(file)), [IssuerLine(s), SignedLine(sig)]);
    OneThenOne(IssuerLine(s), SignedLine(sig));
    return Ok(out + (IssuerLine(s) + ['\n'] + (SignedLine(sig) + ['\n'])));
  }

  lemma OneThenOne(a: string, b: string)
    ensures Joined([a, b]) == a + ['\n'] + (b + ['\n'])
  {
    assert [a, b][1..] == [b] && [b][1..] == [];
    assert Joined([b]) == b + ['\n'] + Joined([]);
  }

  lemma {:induction false} JoinedConcat(a: seq<string>, b: seq<string>)
    ensures Joined(a + b) == Joined(a) + Joined(b)
  {
    if a == [] {
      assert a + b == b;
    } else {
      assert (a + b)[1..] == a[1..] + b;
      JoinedConcat(a[1..], b);
    }
  }

  function Filtered(skip: string -> bool, lines: seq<string>): seq<string> {
    if lines == [] then []
    else (if skip(lines[0]) then [] else [lines[0]]) + Filtered(skip, lines[1..])
  }

  lemma {:induction false} FilteredIsKept(skip: string -> bool, lines: seq<string>)
    requires forall raw :: skip(raw) == Replaced(Words(raw))
    ensures Filtered(skip, lines) == KeptLines(lines)
  {
    if lines != [] {
      FilteredIsKept(skip, lines[1..]);
    }
  }

  lemma {:induction false} FilteredSnoc(skip: string -> bool, lines: seq<string>, line: string)
    ensures Filtered(skip, lines + [line])
         == Filtered(skip, lines) + if skip(line) then [] else [line]
  {
    if lines == [] {
      assert [line][1..] == [];
    } else {
      assert (lines + [line])[1..] == lines[1..] + [line];
      FilteredSnoc(skip, lines[1..], line);
    }
  }

  lemma JoinedSnoc(lines: seq<string>, line: string)
    ensures Joined(lines + [line]) == Joined(lines) + (line + ['\n'])
  {
    JoinedConcat(lines, [line]);
    assert [line][1..] == [];
    assert Joined([line]) == line + ['\n'] + Joined([]);
  }

  lemma JoinedOneMore(skip: string -> bool, lines: seq<string>, i: nat)
    requires i < |lines|
    ensures Joined(Filtered(skip, lines[..i + 1]))
         == if skip(lines[i]) then Joined(Filtered(skip, lines[..i]))
            else Joined(Filtered(skip, lines[..i])) + (lines[i] + ['\n'])
  {
    assert lines[..i + 1] == lines[..i] + [lines[i]];
    FilteredSnoc(skip, lines[..i], lines[i]);
    if skip(lines[i]) {
      assert Filtered(skip, lines[..i]) + [] == Filtered(skip, lines[..i]);
    } else {
      JoinedSnoc(Filtered(skip, lines[..i]), lines[i]);
    }
  }

  /** The lines that are kept, each ended by a newline. */
  method JoinKept(skip: string -> bool, lines: seq<string>) returns (out: string)
    ensures out == Joined(Filtered(skip, lines))
  {
    out := [];
    for i := 0 to |lines|
      invariant out == Joined(Filtered(skip, lines[..i]))
    {
      JoinedOneMore(skip, lines, i);
      if !skip(lines[i]) {
        out := out + (lines[i] + ['\n']);
      }
    }
    assert lines[..|lines|] == lines;
  }
}
