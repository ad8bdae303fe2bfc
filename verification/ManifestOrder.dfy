/** The order a file lists its members in changes nothing. */
module ManifestOrder {
  import opened Basics
  import opened HandKey
  import opened Manifest

  // ---- members that can share a fleet ----

  predicate Clash(m: Member, n: Member) {
    m.index == n.index || m.id == n.id || m.key == n.key
  }

  ghost predicate Apart(members: seq<Member>) {
    forall i, j :: 0 <= i < j < |members| ==> !Clash(members[i], members[j])
  }

  function Less(members: seq<Member>, i: nat): seq<Member>
    requires i < |members|
  {
    members[..i] + members[i + 1..]
  }

  lemma LessConserves(members: seq<Member>, i: nat)
    requires i < |members|
    ensures multiset(members) == multiset(Less(members, i)) + multiset{members[i]}
  {
    assert members == members[..i] + ([members[i]] + members[i + 1..]);
  }

  lemma LessApart(members: seq<Member>, i: nat)
    requires i < |members| && Apart(members)
    ensures Apart(Less(members, i))
    ensures forall m :: m in Less(members, i) ==> !Clash(m, members[i])
  {
    var rest := Less(members, i);
    assert forall k :: 0 <= k < |rest| ==> rest[k] == members[if k < i then k else k + 1];
  }

  lemma Snoc(front: seq<Member>, m: Member)
    requires Apart(front) && forall x :: x in front ==> !Clash(x, m)
    ensures Apart(front + [m])
  {
  }

  lemma SameElements(a: seq<Member>, b: seq<Member>)
    requires multiset(a) == multiset(b)
    ensures forall x :: x in a <==> x in b
    ensures |a| == |b|
  {
    forall x
      ensures x in a <==> x in b
    {
      assert x in a <==> x in multiset(a);
      assert x in b <==> x in multiset(b);
    }
    assert |multiset(a)| == |a| && |multiset(b)| == |b|;
  }

  lemma SameRest(a: seq<Member>, i: nat, front: seq<Member>)
    requires i < |a| && multiset(a) == multiset(front + [a[i]])
    ensures multiset(front) == multiset(Less(a, i))
  {
    LessConserves(a, i);
    assert multiset(front + [a[i]]) == multiset(front) + multiset{a[i]};
    assert multiset(front) == multiset(a) - multiset{a[i]};
    assert multiset(Less(a, i)) == multiset(a) - multiset{a[i]};
  }

  /** Whether members can share a fleet does not depend on their order. */
  lemma {:induction false} ApartAnyOrder(a: seq<Member>, b: seq<Member>)
    requires Apart(a) && multiset(a) == multiset(b)
    ensures Apart(b)
    decreases |b|
  {
    if b != [] {
      var front, m := b[..|b| - 1], b[|b| - 1];
      SameElements(a, b);
      assert m in b;
      var i :| 0 <= i < |a| && a[i] == m;
      assert b == front + [m];
      SameRest(a, i, front);
      LessApart(a, i);
      ApartAnyOrder(Less(a, i), front);
      SameElements(Less(a, i), front);
      Snoc(front, m);
    }
  }

  // ---- sorting ----

  ghost predicate Ordered(members: seq<Member>) {
    forall i, j :: 0 <= i < j < |members| ==> members[i].index <= members[j].index
  }

  lemma {:induction false} InsertedConserves(sorted: seq<Member>, m: Member)
    ensures multiset(Inserted(sorted, m)) == multiset(sorted) + multiset{m}
    decreases |sorted|
  {
    if sorted != [] && m.index >= sorted[0].index {
      InsertedConserves(sorted[1..], m);
      assert sorted == [sorted[0]] + sorted[1..];
    }
  }

  lemma {:induction false} InsertedElements(sorted: seq<Member>, m: Member)
    ensures forall x :: x in Inserted(sorted, m) <==> x in sorted || x == m
    decreases |sorted|
  {
    if sorted != [] && m.index >= sorted[0].index {
      InsertedElements(sorted[1..], m);
      assert sorted == [sorted[0]] + sorted[1..];
    }
  }

  lemma {:induction false} InsertedOrdered(sorted: seq<Member>, m: Member)
    requires Ordered(sorted)
    ensures Ordered(Inserted(sorted, m))
    decreases |sorted|
  {
    if sorted != [] && m.index >= sorted[0].index {
      var rest := Inserted(sorted[1..], m);
      InsertedOrdered(sorted[1..], m);
      InsertedElements(sorted[1..], m);
      forall k | 0 <= k < |rest|
        ensures sorted[0].index <= rest[k].index
      {
        assert rest[k] in rest;
      }
    }
  }

  lemma {:induction false} SortedIs(members: seq<Member>)
    ensures Ordered(SortedByIndex(members))
    ensures multiset(SortedByIndex(members)) == multiset(members)
    decreases |members|
  {
    if members != [] {
      var front, m := members[..|members| - 1], members[|members| - 1];
      SortedIs(front);
      InsertedOrdered(SortedByIndex(front), m);
      InsertedConserves(SortedByIndex(front), m);
      assert members == front + [m];
    }
  }

  lemma OnePlace(s: seq<Member>, i: nat, j: nat)
    requires Apart(s) && i < |s| && j < |s| && s[i].index == s[j].index
    ensures i == j
  {
  }

  lemma FirstAgrees(s: seq<Member>, t: seq<Member>)
    requires Ordered(s) && Ordered(t) && Apart(s) && multiset(s) == multiset(t) && s != []
    ensures t != [] && s[0] == t[0]
  {
    SameElements(s, t);
    assert s[0] in t && t[0] in s;
    var i :| 0 <= i < |t| && t[i] == s[0];
    var j :| 0 <= j < |s| && s[j] == t[0];
    assert s[0].index <= s[j].index && t[0].index <= t[i].index;
    OnePlace(s, 0, j);
  }

  lemma RestAgrees(s: seq<Member>, t: seq<Member>)
    requires s != [] && t != [] && s[0] == t[0] && multiset(s) == multiset(t)
    ensures multiset(s[1..]) == multiset(t[1..])
  {
    assert s == [s[0]] + s[1..] && t == [t[0]] + t[1..];
    assert multiset(s[1..]) == multiset(s) - multiset{s[0]};
    assert multiset(t[1..]) == multiset(t) - multiset{t[0]};
  }

  lemma {:induction false} OneOrder(s: seq<Member>, t: seq<Member>)
    requires Ordered(s) && Ordered(t) && Apart(s) && multiset(s) == multiset(t)
    ensures s == t
    decreases |s|
  {
    SameElements(s, t);
    if s != [] {
      FirstAgrees(s, t);
      RestAgrees(s, t);
      OneOrder(s[1..], t[1..]);
      assert s == [s[0]] + s[1..] && t == [t[0]] + t[1..];
    }
  }

  /** Sorting forgets the order. */
  lemma SortForgetsOrder(a: seq<Member>, b: seq<Member>)
    requires Apart(a) && multiset(a) == multiset(b)
    ensures SortedByIndex(a) == SortedByIndex(b)
  {
    SortedIs(a);
    SortedIs(b);
    ApartAnyOrder(a, SortedByIndex(a));
    OneOrder(SortedByIndex(a), SortedByIndex(b));
  }

  // ---- reading a file whose members stand in another order ----

  /** The same content, its members in some other order. */
  ghost predicate Alike(c: Content, d: Content) {
    c == d.(members := c.members) && multiset(c.members) == multiset(d.members) && Apart(c.members)
  }

  /** A member is seated exactly if it clashes with nobody. */
  lemma SeatedExactly(c: Content, m: Member, line: nat)
    ensures Seated(c, m, line).Ok? <==> forall x :: x in c.members ==> !Clash(x, m)
    ensures Seated(c, m, line).Ok? ==> Seated(c, m, line).value == c.(members := c.members + [m])
  {
    if Seated(c, m, line).Ok? {
      forall x | x in c.members
        ensures !Clash(x, m)
      {
        var k :| 0 <= k < |c.members| && c.members[k] == x;
      }
    } else if IndexTaken(c.members, m.index) {
      var k :| 0 <= k < |c.members| && c.members[k].index == m.index;
      assert c.members[k] in c.members;
    } else if IdTaken(c.members, m.id) {
      var k :| 0 <= k < |c.members| && c.members[k].id == m.id;
      assert c.members[k] in c.members;
    } else {
      var k :| 0 <= k < |c.members| && c.members[k].key == m.key;
      assert c.members[k] in c.members;
    }
  }

  /** Reading a member line does not depend on where it stands. */
  lemma MemberAnywhere(isKey: key -> bool, words: seq<string>, line: nat, other: nat)
    ensures MemberOf(isKey, words, line).Ok? <==> MemberOf(isKey, words, other).Ok?
    ensures MemberOf(isKey, words, line).Ok? ==>
      MemberOf(isKey, words, line).value == MemberOf(isKey, words, other).value
  {
  }

  // ---- member lines and the others ----

  predicate IsMember(words: seq<string>) {
    words != [] && DirectiveOf(words[0]) == MemberLine
  }

  predicate IsHeaderLine(words: seq<string>) {
    words != [] && IsHeader(DirectiveOf(words[0]))
  }

  predicate IsSignature(words: seq<string>) {
    words != [] && DirectiveOf(words[0]) == SignatureLine
  }

  /** The member lines, in the order they stand. */
  function MemberLines(lines: seq<seq<string>>): (r: seq<seq<string>>)
    ensures forall i :: 0 <= i < |r| ==> IsMember(r[i])
  {
    if lines == [] then []
    else (if IsMember(lines[0]) then [lines[0]] else []) + MemberLines(lines[1..])
  }

  /** The other lines that say something, in the order they stand. */
  function OtherLines(lines: seq<seq<string>>): seq<seq<string>> {
    if lines == [] then []
    else (if lines[0] == [] || IsMember(lines[0]) then [] else [lines[0]]) + OtherLines(lines[1..])
  }

  /** No header stands after a member, and nothing after the signature. */
  predicate WellOrdered(lines: seq<seq<string>>) {
    forall i, j :: 0 <= i < j < |lines| && lines[j] != [] ==>
      !IsSignature(lines[i]) && !(IsMember(lines[i]) && IsHeaderLine(lines[j]))
  }

  /** The same, once some members or a signature have been read. */
  predicate InOrder(seated: bool, signed: bool, lines: seq<seq<string>>)
    decreases |lines|
  {
    if lines == [] then true
    else if lines[0] == [] then InOrder(seated, signed, lines[1..])
    else
      !signed && !(seated && IsHeaderLine(lines[0]))
      && InOrder(seated || IsMember(lines[0]), IsSignature(lines[0]), lines[1..])
  }

  predicate FollowsWell(seated: bool, signed: bool, lines: seq<seq<string>>) {
    forall j :: 0 <= j < |lines| && lines[j] != [] ==> !signed && !(seated && IsHeaderLine(lines[j]))
  }

  lemma WellOrderedCons(lines: seq<seq<string>>)
    requires lines != []
    ensures WellOrdered(lines)
       <==> WellOrdered(lines[1..])
            && FollowsWell(IsMember(lines[0]), IsSignature(lines[0]), lines[1..])
  {
    var rest := lines[1..];
    assert forall i :: 0 <= i < |rest| ==> rest[i] == lines[i + 1];
    assert forall i :: 1 <= i < |lines| ==> lines[i] == rest[i - 1];
  }

  lemma FollowsWellCons(seated: bool, signed: bool, lines: seq<seq<string>>)
    requires lines != []
    ensures FollowsWell(seated, signed, lines)
       <==> (lines[0] != [] ==> !signed && !(seated && IsHeaderLine(lines[0])))
            && FollowsWell(seated, signed, lines[1..])
  {
    var rest := lines[1..];
    assert forall i :: 0 <= i < |rest| ==> rest[i] == lines[i + 1];
    assert forall i :: 1 <= i < |lines| ==> lines[i] == rest[i - 1];
  }

  lemma {:induction false} InOrderExactly(seated: bool, signed: bool, lines: seq<seq<string>>)
    ensures InOrder(seated, signed, lines) <==> FollowsWell(seated, signed, lines) && WellOrdered(lines)
    decreases |lines|
  {
    if lines != [] {
      var first, rest := lines[0], lines[1..];
      WellOrderedCons(lines);
      FollowsWellCons(seated, signed, lines);
      if first == [] {
        InOrderExactly(seated, signed, rest);
      } else {
        InOrderExactly(seated || IsMember(first), IsSignature(first), rest);
      }
    }
  }

  // ---- reading them apart ----

  predicate AllSome<A, B>(f: A -> Option<B>, xs: seq<A>) {
    forall i :: 0 <= i < |xs| ==> f(xs[i]).Some?
  }

  function Values<A, B>(f: A -> Option<B>, xs: seq<A>): (r: seq<B>)
    requires AllSome(f, xs)
    ensures |r| == |xs|
  {
    if xs == [] then [] else [f(xs[0]).value] + Values(f, xs[1..])
  }

  lemma AllSomeCons<A, B>(f: A -> Option<B>, xs: seq<A>)
    requires xs != []
    ensures AllSome(f, xs) <==> f(xs[0]).Some? && AllSome(f, xs[1..])
  {
    if f(xs[0]).Some? && AllSome(f, xs[1..]) {
      forall i | 0 <= i < |xs|
        ensures f(xs[i]).Some?
      {
        assert i > 0 ==> xs[i] == xs[1..][i - 1];
      }
    }
  }

  lemma AllSomeConcat<A, B>(f: A -> Option<B>, a: seq<A>, b: seq<A>)
    ensures AllSome(f, a + b) <==> AllSome(f, a) && AllSome(f, b)
  {
    assert forall i :: 0 <= i < |a| ==> (a + b)[i] == a[i];
    assert forall i :: 0 <= i < |b| ==> (a + b)[|a| + i] == b[i];
  }

  lemma {:induction false} ValuesConcat<A, B>(f: A -> Option<B>, a: seq<A>, b: seq<A>)
    requires AllSome(f, a) && AllSome(f, b) && AllSome(f, a + b)
    ensures Values(f, a + b) == Values(f, a) + Values(f, b)
    decreases |a|
  {
    if a == [] {
      assert a + b == b;
    } else {
      assert (a + b)[1..] == a[1..] + b;
      AllSomeConcat(f, a[1..], b);
      ValuesConcat(f, a[1..], b);
    }
  }

  lemma Extracted<A>(xs: seq<A>, x: A) returns (a: seq<A>, b: seq<A>)
    requires x in xs
    ensures xs == a + ([x] + b)
  {
    var i :| 0 <= i < |xs| && xs[i] == x;
    a, b := xs[..i], xs[i + 1..];
  }

  lemma SameRemainder<A>(first: A, rest: seq<A>, a: seq<A>, b: seq<A>)
    requires multiset([first] + rest) == multiset(a + ([first] + b))
    ensures multiset(rest) == multiset(a + b)
  {
    assert multiset([first] + rest) == multiset{first} + multiset(rest);
    assert multiset(a + ([first] + b)) == multiset(a) + (multiset{first} + multiset(b));
    assert multiset(rest) == multiset([first] + rest) - multiset{first};
    assert multiset(a + b) == multiset(a + ([first] + b)) - multiset{first};
  }

  lemma InMiddle<A, B>(f: A -> Option<B>, a: seq<A>, x: A, b: seq<A>)
    requires AllSome(f, a + b) && f(x).Some?
    ensures AllSome(f, a + ([x] + b))
    ensures multiset(Values(f, a + ([x] + b))) == multiset{f(x).value} + multiset(Values(f, a + b))
  {
    AllSomeConcat(f, a, b);
    assert ([x] + b)[1..] == b;
    AllSomeCons(f, [x] + b);
    AllSomeConcat(f, a, [x] + b);
    ValuesConcat(f, a, [x] + b);
    ValuesConcat(f, a, b);
  }

  /** The same lines in another order read as the same members. */
  lemma {:induction false} ValuesAnyOrder<A, B>(f: A -> Option<B>, xs: seq<A>, ys: seq<A>)
    requires multiset(xs) == multiset(ys) && AllSome(f, xs)
    ensures AllSome(f, ys)
    ensures multiset(Values(f, xs)) == multiset(Values(f, ys))
    decreases |xs|
  {
    if xs == [] {
      assert |multiset(ys)| == 0;
      assert ys == [];
    } else {
      var first, rest := xs[0], xs[1..];
      assert xs == [first] + rest;
      assert first in multiset(ys);
      var a, b := Extracted(ys, first);
      SameRemainder(first, rest, a, b);
      AllSomeCons(f, xs);
      ValuesAnyOrder(f, rest, a + b);
      InMiddle(f, a, first, b);
    }
  }

  /** The member a line names, if it can be read. */
  function MemberIn(isKey: key -> bool, words: seq<string>): Option<Member> {
    match MemberOf(isKey, words, 0)
    case Err(_) => None
    case Ok(m) => Some(m)
  }

  function Reader(isKey: key -> bool): seq<string> -> Option<Member> {
    words => MemberIn(isKey, words)
  }

  lemma MemberStep(isKey: key -> bool, c: Content, words: seq<string>, line: nat)
    requires words != [] && DirectiveOf(words[0]) == MemberLine && c.signature == None
    ensures Step(isKey, c, words, line).Ok?
       <==> Reader(isKey)(words).Some?
            && forall x :: x in c.members ==> !Clash(x, Reader(isKey)(words).value)
    ensures Step(isKey, c, words, line).Ok? ==>
      Step(isKey, c, words, line).value == Joined(c, Reader(isKey)(words).value)
  {
    MemberAnywhere(isKey, words, line, 0);
    if MemberOf(isKey, words, line).Ok? {
      SeatedExactly(c, MemberOf(isKey, words, line).value, line);
    }
  }

  function Joined(c: Content, m: Member): Content {
    c.(members := c.members + [m])
  }

  lemma ApartSplits(held: seq<Member>, m: Member, rest: seq<Member>)
    requires Apart(held)
    ensures Apart(held + ([m] + rest)) ==> forall x :: x in held ==> !Clash(x, m)
    ensures (forall x :: x in held ==> !Clash(x, m)) ==> Apart(held + [m])
    ensures held + ([m] + rest) == held + [m] + rest
  {
    var all := held + ([m] + rest);
    if Apart(all) {
      forall x | x in held
        ensures !Clash(x, m)
      {
        var k :| 0 <= k < |held| && held[k] == x;
        assert all[k] == x && all[|held|] == m;
      }
    }
  }

  /** The content without its members. */
  function Unmanned(c: Content): Content {
    c.(members := [])
  }

  /** What a line that is no member's says. */
  function Said(isKey: key -> bool, c: Content, words: seq<string>): Option<Content>
    requires words != []
  {
    match Step(isKey, c, words, 0)
    case Err(_) => None
    case Ok(next) => Some(next)
  }

  lemma AppliedAnywhere(isKey: key -> bool, c: Content, words: seq<string>, line: nat)
    requires words != [] && !IsMember(words)
    ensures Applied(isKey, c, words, line).Ok? <==> Applied(isKey, c, words, 0).Ok?
    ensures Applied(isKey, c, words, line).Ok? ==>
      Applied(isKey, c, words, line).value == Applied(isKey, c, words, 0).value
  {
  }

  lemma AppliedUnmanned(isKey: key -> bool, c: Content, words: seq<string>)
    requires words != [] && !IsMember(words) && c.signature == None
    ensures Applied(isKey, c, words, 0).Ok? <==> Applied(isKey, Unmanned(c), words, 0).Ok?
    ensures Applied(isKey, c, words, 0).Ok? ==>
      var next := Applied(isKey, Unmanned(c), words, 0).value;
      Applied(isKey, c, words, 0).value == next.(members := c.members)
      && next.members == [] && (next.signature.Some? <==> IsSignature(words))
  {
  }

  /** Any other line does the same wherever it stands and whatever members there
      are, except that a header has to come before them. */
  lemma OtherStep(isKey: key -> bool, c: Content, words: seq<string>, line: nat)
    requires words != [] && !IsMember(words) && c.signature == None
    ensures Step(isKey, c, words, line).Ok?
       <==> !(c.members != [] && IsHeaderLine(words)) && Said(isKey, Unmanned(c), words).Some?
    ensures Step(isKey, c, words, line).Ok? ==>
      Step(isKey, c, words, line).value
      == Said(isKey, Unmanned(c), words).value.(members := c.members)
    ensures Said(isKey, Unmanned(c), words).Some? ==>
      Said(isKey, Unmanned(c), words).value.members == []
      && (Said(isKey, Unmanned(c), words).value.signature.Some? <==> IsSignature(words))
  {
    AppliedAnywhere(isKey, c, words, line);
    AppliedUnmanned(isKey, c, words);
  }

  /** What the lines that are no member's say, one after another. */
  function Spoken(isKey: key -> bool, c: Content, lines: seq<seq<string>>): Option<Content>
    decreases |lines|
  {
    if lines == [] then Some(c)
    else if lines[0] == [] || IsMember(lines[0]) then Spoken(isKey, c, lines[1..])
    else
      match Said(isKey, c, lines[0])
      case None => None
      case Some(next) => Spoken(isKey, next, lines[1..])
  }

  lemma {:induction false} OnlyOthersSpeak(isKey: key -> bool, c: Content, lines: seq<seq<string>>)
    ensures Spoken(isKey, c, lines) == Spoken(isKey, c, OtherLines(lines))
    decreases |lines|
  {
    if lines != [] {
      var first, rest := lines[0], lines[1..];
      if first == [] || IsMember(first) {
        assert OtherLines(lines) == OtherLines(rest);
        OnlyOthersSpeak(isKey, c, rest);
      } else {
        assert OtherLines(lines)[0] == first && OtherLines(lines)[1..] == OtherLines(rest);
        if Said(isKey, c, first).Some? {
          OnlyOthersSpeak(isKey, Said(isKey, c, first).value, rest);
        }
      }
    }
  }

  type Names = seq<string> -> Option<Member>

  /** These members can be read, and can join those who are there. */
  ghost predicate CanJoin(f: Names, held: seq<Member>, lines: seq<seq<string>>) {
    AllSome(f, lines) && Apart(held + Values(f, lines))
  }

  lemma OneJoins(f: Names, held: seq<Member>, lines: seq<seq<string>>)
    requires Apart(held) && lines != [] && f(lines[0]).Some?
    ensures CanJoin(f, held, lines)
       <==> (forall x :: x in held ==> !Clash(x, f(lines[0]).value))
            && CanJoin(f, held + [f(lines[0]).value], lines[1..])
    ensures CanJoin(f, held, lines) ==>
      held + Values(f, lines) == held + [f(lines[0]).value] + Values(f, lines[1..])
  {
    AllSomeCons(f, lines);
    if AllSome(f, lines) {
      ApartSplits(held, f(lines[0]).value, Values(f, lines[1..]));
    }
  }

  /** The lines are in order, the others say something lawful, and the members are
      readable and can share a fleet. */
  ghost predicate Readable(isKey: key -> bool, c: Content, lines: seq<seq<string>>) {
    InOrder(c.members != [], c.signature.Some?, lines)
    && Spoken(isKey, Unmanned(c), lines).Some?
    && CanJoin(Reader(isKey), c.members, MemberLines(lines))
  }

  /** What is read off them. */
  ghost function ReadOff(isKey: key -> bool, c: Content, lines: seq<seq<string>>): Content
    requires Readable(isKey, c, lines)
  {
    Spoken(isKey, Unmanned(c), lines).value.(
      members := c.members + Values(Reader(isKey), MemberLines(lines)))
  }

  ghost predicate ReadsExactly(
    isKey: key -> bool, c: Content, lines: seq<seq<string>>, r: Result<Content, ManifestError>)
  {
    (r.Ok? <==> Readable(isKey, c, lines)) && (r.Ok? ==> r.value == ReadOff(isKey, c, lines))
  }

  lemma MemberLinesCons(lines: seq<seq<string>>)
    requires lines != [] && IsMember(lines[0])
    ensures MemberLines(lines) != [] && MemberLines(lines)[0] == lines[0]
    ensures MemberLines(lines)[1..] == MemberLines(lines[1..])
  {
  }

  lemma MemberFirst(isKey: key -> bool, c: Content, lines: seq<seq<string>>)
    requires lines != [] && IsMember(lines[0]) && Apart(c.members) && c.signature == None
    requires Reader(isKey)(lines[0]).Some?
    ensures var m := Reader(isKey)(lines[0]).value;
            (Readable(isKey, c, lines)
             <==> (forall x :: x in c.members ==> !Clash(x, m))
                  && Readable(isKey, Joined(c, m), lines[1..]))
            && (Readable(isKey, c, lines) ==>
                  ReadOff(isKey, c, lines) == ReadOff(isKey, Joined(c, m), lines[1..]))
  {
    MemberLinesCons(lines);
    OneJoins(Reader(isKey), c.members, MemberLines(lines));
    assert Unmanned(Joined(c, Reader(isKey)(lines[0]).value)) == Unmanned(c);
  }

  lemma UnreadableFirst(isKey: key -> bool, c: Content, lines: seq<seq<string>>)
    requires lines != [] && IsMember(lines[0])
    ensures c.signature.Some? || Reader(isKey)(lines[0]) == None ==> !Readable(isKey, c, lines)
  {
    MemberLinesCons(lines);
  }

  lemma ReadsMember(isKey: key -> bool, c: Content, lines: seq<seq<string>>, line: nat)
    requires lines != [] && IsMember(lines[0]) && Apart(c.members)
    requires Step(isKey, c, lines[0], line).Ok? ==>
      Apart(Step(isKey, c, lines[0], line).value.members) ==>
      ReadsExactly(isKey, Step(isKey, c, lines[0], line).value, lines[1..],
                   Reading(isKey, Step(isKey, c, lines[0], line).value, lines[1..], line + 1))
    ensures ReadsExactly(isKey, c, lines, Reading(isKey, c, lines, line))
  {
    UnreadableFirst(isKey, c, lines);
    if c.signature == None {
      MemberStep(isKey, c, lines[0], line);
      if Reader(isKey)(lines[0]).Some? {
        MemberFirst(isKey, c, lines);
        if Step(isKey, c, lines[0], line).Ok? {
          Snoc(c.members, Reader(isKey)(lines[0]).value);
        }
      }
    }
  }

  lemma ReadsOther(isKey: key -> bool, c: Content, lines: seq<seq<string>>, line: nat)
    requires lines != [] && lines[0] != [] && !IsMember(lines[0]) && Apart(c.members)
    requires Step(isKey, c, lines[0], line).Ok? ==>
      Apart(Step(isKey, c, lines[0], line).value.members) ==>
      ReadsExactly(isKey, Step(isKey, c, lines[0], line).value, lines[1..],
                   Reading(isKey, Step(isKey, c, lines[0], line).value, lines[1..], line + 1))
    ensures ReadsExactly(isKey, c, lines, Reading(isKey, c, lines, line))
  {
    if c.signature == None {
      OtherStep(isKey, c, lines[0], line);
      assert MemberLines(lines) == MemberLines(lines[1..]);
    }
  }

  /** A file is read exactly if its lines are in order, the lines that are no
      member's can be read by themselves, and the members are readable and can
      share a fleet; and what is read is what the two say. */
  lemma {:induction false} ReadingExactly(
    isKey: key -> bool, c: Content, lines: seq<seq<string>>, line: nat)
    requires Apart(c.members)
    ensures ReadsExactly(isKey, c, lines, Reading(isKey, c, lines, line))
    decreases |lines|
  {
    if lines == [] {
      assert c.members + [] == c.members;
    } else {
      var step := Step(isKey, c, lines[0], line);
      if step.Ok? && Apart(step.value.members) {
        ReadingExactly(isKey, step.value, lines[1..], line + 1);
      }
      if lines[0] == [] {
        assert MemberLines(lines) == MemberLines(lines[1..]);
      } else if IsMember(lines[0]) {
        ReadsMember(isKey, c, lines, line);
      } else {
        ReadsOther(isKey, c, lines, line);
      }
    }
  }

  // ---- the same lines in another order ----

  lemma FinishedAlike(c: Content, d: Content)
    requires Alike(c, d)
    ensures Finished(c) == Finished(d)
  {
    SortForgetsOrder(c.members, d.members);
    SameElements(c.members, d.members);
  }

  /** The two files say the same in their other lines, and name the same members
      line by line, in whatever order and wherever they stand. */
  ghost predicate SameSaying(lines: seq<seq<string>>, others: seq<seq<string>>) {
    OtherLines(lines) == OtherLines(others)
    && multiset(MemberLines(lines)) == multiset(MemberLines(others))
  }

  lemma JoinAlike(f: Names, lines: seq<seq<string>>, others: seq<seq<string>>)
    requires multiset(lines) == multiset(others) && CanJoin(f, [], lines)
    ensures CanJoin(f, [], others)
    ensures multiset([] + Values(f, lines)) == multiset([] + Values(f, others))
  {
    ValuesAnyOrder(f, lines, others);
    var x, y := Values(f, lines), Values(f, others);
    assert [] + x == x && [] + y == y;
    ApartAnyOrder(x, y);
  }

  lemma ReadableAlike(isKey: key -> bool, lines: seq<seq<string>>, others: seq<seq<string>>)
    requires SameSaying(lines, others) && WellOrdered(others) && Readable(isKey, NOTHING, lines)
    ensures Readable(isKey, NOTHING, others)
    ensures Alike(ReadOff(isKey, NOTHING, lines), ReadOff(isKey, NOTHING, others))
  {
    OnlyOthersSpeak(isKey, NOTHING, lines);
    OnlyOthersSpeak(isKey, NOTHING, others);
    InOrderExactly(false, false, others);
    JoinAlike(Reader(isKey), MemberLines(lines), MemberLines(others));
  }

  lemma ReadAlike(isKey: key -> bool, lines: seq<seq<string>>, others: seq<seq<string>>)
    requires SameSaying(lines, others) && WellOrdered(others)
    requires Reading(isKey, NOTHING, lines, 1).Ok?
    ensures Reading(isKey, NOTHING, others, 1).Ok?
    ensures Alike(Reading(isKey, NOTHING, lines, 1).value, Reading(isKey, NOTHING, others, 1).value)
  {
    ReadingExactly(isKey, NOTHING, lines, 1);
    ReadingExactly(isKey, NOTHING, others, 1);
    ReadableAlike(isKey, lines, others);
  }

  lemma ParsedIsOrdered(isKey: key -> bool, lines: seq<seq<string>>)
    ensures ParsedLines(isKey, lines).Ok? ==> WellOrdered(lines)
  {
    ReadingExactly(isKey, NOTHING, lines, 1);
    InOrderExactly(false, false, lines);
  }

  lemma ParsedAlike(isKey: key -> bool, lines: seq<seq<string>>, others: seq<seq<string>>)
    requires SameSaying(lines, others) && WellOrdered(others) && ParsedLines(isKey, lines).Ok?
    ensures ParsedLines(isKey, others) == ParsedLines(isKey, lines)
  {
    ReadAlike(isKey, lines, others);
    FinishedAlike(Reading(isKey, NOTHING, lines, 1).value, Reading(isKey, NOTHING, others, 1).value);
  }

  /** Two files that differ in blank lines, in comments, and in where and in which
      order their member lines stand: if one is a manifest, the other is one
      exactly if no header stands after a member and nothing after the signature,
      and then it is the very same manifest: same canonical bytes, same identity. */
  lemma SpellingDoesNotMatter(isKey: key -> bool, lines: seq<seq<string>>, others: seq<seq<string>>)
    requires SameSaying(lines, others) && ParsedLines(isKey, lines).Ok?
    ensures ParsedLines(isKey, others).Ok? <==> WellOrdered(others)
    ensures ParsedLines(isKey, others).Ok? ==>
      ParsedLines(isKey, others) == ParsedLines(isKey, lines)
  {
    ParsedIsOrdered(isKey, others);
    if WellOrdered(others) {
      ParsedAlike(isKey, lines, others);
    }
  }

  /** Line by line: a member's line stands for a member's line, and any other line
      for itself. */
  predicate SamePlaces(lines: seq<seq<string>>, others: seq<seq<string>>) {
    |lines| == |others|
    && forall i :: 0 <= i < |lines| ==>
         (IsMember(lines[i]) <==> IsMember(others[i])) && (!IsMember(lines[i]) ==> lines[i] == others[i])
  }

  lemma {:induction false} SamePlacesSayTheSame(lines: seq<seq<string>>, others: seq<seq<string>>)
    requires SamePlaces(lines, others)
    ensures OtherLines(lines) == OtherLines(others)
    decreases |lines|
  {
    if lines != [] {
      assert forall i :: 0 <= i < |lines[1..]| ==>
        lines[1..][i] == lines[i + 1] && others[1..][i] == others[i + 1];
      SamePlacesSayTheSame(lines[1..], others[1..]);
    }
  }

  lemma SamePlacesSameOrder(lines: seq<seq<string>>, others: seq<seq<string>>)
    requires SamePlaces(lines, others) && WellOrdered(lines)
    ensures WellOrdered(others)
  {
    forall i, j | 0 <= i < j < |others| && others[j] != []
      ensures !IsSignature(others[i]) && !(IsMember(others[i]) && IsHeaderLine(others[j]))
    {
      assert lines[j] != [];
    }
  }

  /** Two files whose member lines have changed places among themselves, whatever
      stands between them, are both manifests or neither is, and then they are the
      very same manifest. */
  lemma MemberOrderDoesNotMatter(
    isKey: key -> bool, lines: seq<seq<string>>, others: seq<seq<string>>)
    requires SamePlaces(lines, others)
    requires multiset(MemberLines(lines)) == multiset(MemberLines(others))
    ensures ParsedLines(isKey, lines).Ok? <==> ParsedLines(isKey, others).Ok?
    ensures ParsedLines(isKey, lines).Ok? ==>
      ParsedLines(isKey, lines) == ParsedLines(isKey, others)
  {
    SamePlacesSayTheSame(lines, others);
    ParsedIsOrdered(isKey, lines);
    ParsedIsOrdered(isKey, others);
    if ParsedLines(isKey, lines).Ok? {
      SamePlacesSameOrder(lines, others);
      SpellingDoesNotMatter(isKey, lines, others);
    } else if ParsedLines(isKey, others).Ok? {
      SpellingDoesNotMatter(isKey, others, lines);
    }
  }

  // ---- one piece of a file after another ----

  type Stepper = (Content, seq<string>, nat) -> Result<Content, ManifestError>

  /** Lines one after another, whatever each one does. */
  function Fold(step: Stepper, c: Content, lines: seq<seq<string>>, line: nat)
    : Result<Content, ManifestError>
    decreases |lines|
  {
    if lines == [] then Ok(c)
    else
      match step(c, lines[0], line)
      case Err(e) => Err(e)
      case Ok(next) => Fold(step, next, lines[1..], line + 1)
  }

  function Then(step: Stepper, r: Result<Content, ManifestError>, lines: seq<seq<string>>, line: nat)
    : Result<Content, ManifestError>
  {
    match r
    case Err(e) => Err(e)
    case Ok(c) => Fold(step, c, lines, line)
  }

  lemma {:induction false} FoldSplit(
    step: Stepper, c: Content, a: seq<seq<string>>, b: seq<seq<string>>, line: nat, next: nat)
    requires next == line + |a|
    ensures Fold(step, c, a + b, line) == Then(step, Fold(step, c, a, line), b, next)
    decreases |a|
  {
    if a == [] {
      assert a + b == b;
    } else {
      assert (a + b)[1..] == a[1..] + b;
      if step(c, a[0], line).Ok? {
        FoldSplit(step, step(c, a[0], line).value, a[1..], b, line + 1, next);
      }
    }
  }

  function StepOf(isKey: key -> bool): Stepper {
    (c: Content, words: seq<string>, line: nat) => Step(isKey, c, words, line)
  }

  lemma {:induction false} ReadingIsFold(isKey: key -> bool, c: Content, lines: seq<seq<string>>, line: nat)
    ensures Reading(isKey, c, lines, line) == Fold(StepOf(isKey), c, lines, line)
    decreases |lines|
  {
    if lines != [] && Step(isKey, c, lines[0], line).Ok? {
      ReadingIsFold(isKey, Step(isKey, c, lines[0], line).value, lines[1..], line + 1);
    }
  }

  lemma ReadingSplit(
    isKey: key -> bool, c: Content, a: seq<seq<string>>, b: seq<seq<string>>, line: nat, next: nat)
    requires next == line + |a|
    ensures Reading(isKey, c, a + b, line) == Pieces(isKey, c, a, b, line, next)
  {
    FoldSplit(StepOf(isKey), c, a, b, line, next);
    ReadingIsFold(isKey, c, a + b, line);
    ReadingIsFold(isKey, c, a, line);
    if Reading(isKey, c, a, line).Ok? {
      ReadingIsFold(isKey, Reading(isKey, c, a, line).value, b, next);
    }
  }

  /** Two pieces of a file, one after another, from these two lines on. */
  function Pieces(isKey: key -> bool, c: Content, a: seq<seq<string>>, b: seq<seq<string>>,
                  line: nat, next: nat): Result<Content, ManifestError>
  {
    match Reading(isKey, c, a, line)
    case Err(e) => Err(e)
    case Ok(d) => Reading(isKey, d, b, next)
  }
}
