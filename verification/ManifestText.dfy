/** A manifest file as text: lines, words, numbers and hexadecimal, each with one
    spelling. */
module ManifestText {
  import opened Basics
  import opened HandTyping

  // ---- lines ----

  /** Where the first `c` stands, or the length if there is none. */
  function Find(s: string, c: char): (i: nat)
    ensures i <= |s| && (i < |s| ==> s[i] == c)
    ensures forall k :: 0 <= k < i ==> s[k] != c
  {
    if s == [] || s[0] == c then 0 else 1 + Find(s[1..], c)
  }

  function StripCr(line: string): string {
    if line != [] && line[|line| - 1] == '\r' then line[..|line| - 1] else line
  }

  /** `str::lines`: a newline ends a line, and takes a carriage return before it
      along; no empty line follows the last newline. */
  function Lines(s: string): seq<string>
    decreases |s|
  {
    if s == [] then []
    else
      var i := Find(s, '\n');
      if i == |s| then [s] else [StripCr(s[..i])] + Lines(s[i + 1..])
  }

  predicate OneLine(line: string) {
    forall k :: 0 <= k < |line| ==> line[k] != '\n'
  }

  lemma {:induction false} LinesAreLines(s: string)
    ensures forall i :: 0 <= i < |Lines(s)| ==> OneLine(Lines(s)[i])
    decreases |s|
  {
    if s != [] && Find(s, '\n') < |s| {
      LinesAreLines(s[Find(s, '\n') + 1..]);
    }
  }

  function Joined(lines: seq<string>): string {
    if lines == [] then [] else lines[0] + ['\n'] + Joined(lines[1..])
  }

  function Stripped(lines: seq<string>): (r: seq<string>)
    ensures |r| == |lines|
  {
    seq(|lines|, i requires 0 <= i < |lines| => StripCr(lines[i]))
  }

  lemma FindIs(s: string, c: char, i: nat)
    requires i <= |s| && (i < |s| ==> s[i] == c)
    requires forall k :: 0 <= k < i ==> s[k] != c
    ensures Find(s, c) == i
  {
    assert !(Find(s, c) < i);
    assert !(i < Find(s, c));
  }

  lemma FindEnd(line: string, rest: string)
    requires OneLine(line)
    ensures Find(line + ['\n'] + rest, '\n') == |line|
  {
    FindIs(line + ['\n'] + rest, '\n', |line|);
  }

  /** Lines written out one by one read back as they were, save that a carriage
      return at the end of one is taken for part of the line's end. */
  lemma {:induction false} JoinedReads(lines: seq<string>)
    requires forall i :: 0 <= i < |lines| ==> OneLine(lines[i])
    ensures Lines(Joined(lines)) == Stripped(lines)
  {
    if lines != [] {
      FirstLine(lines[0], Joined(lines[1..]));
      JoinedReads(lines[1..]);
      assert Stripped(lines) == [StripCr(lines[0])] + Stripped(lines[1..]);
    }
  }

  lemma FirstLine(first: string, rest: string)
    requires OneLine(first)
    ensures Lines(first + ['\n'] + rest) == [StripCr(first)] + Lines(rest)
  {
    var s := first + ['\n'] + rest;
    FindEnd(first, rest);
    assert s[..|first|] == first && s[|first| + 1..] == rest;
  }

  // ---- words ----

  function WordEnd(s: string): (n: nat)
    ensures n <= |s| && (n < |s| ==> IsWhitespace(s[n]))
    ensures forall k :: 0 <= k < n ==> !IsWhitespace(s[k])
  {
    if s == [] || IsWhitespace(s[0]) then 0 else 1 + WordEnd(s[1..])
  }

  /** `split_whitespace`. */
  function WordsOf(s: string): seq<string>
    decreases |s|
  {
    if s == [] then []
    else if IsWhitespace(s[0]) then WordsOf(s[1..])
    else [s[..WordEnd(s)]] + WordsOf(s[WordEnd(s)..])
  }

  /** The words of a line, with everything after a `#` ignored. */
  function Words(line: string): seq<string> {
    WordsOf(line[..Find(line, '#')])
  }

  predicate IsWord(w: string) {
    w != [] && forall k :: 0 <= k < |w| ==> !IsWhitespace(w[k]) && w[k] != '#'
  }

  lemma WordEndConcat(w: string, rest: string)
    requires forall k :: 0 <= k < |w| ==> !IsWhitespace(w[k])
    requires rest == [] || IsWhitespace(rest[0])
    ensures WordEnd(w + rest) == |w|
  {
    WordEndIs(w + rest, |w|);
  }

  lemma WordEndIs(s: string, n: nat)
    requires n <= |s| && (n < |s| ==> IsWhitespace(s[n]))
    requires forall k :: 0 <= k < n ==> !IsWhitespace(s[k])
    ensures WordEnd(s) == n
  {
    assert !(WordEnd(s) < n);
    assert !(n < WordEnd(s));
  }

  lemma OneWord(w: string)
    requires IsWord(w)
    ensures WordsOf(w) == [w]
  {
    WordEndConcat(w, []);
    assert w + [] == w;
    assert w[|w|..] == [] && w[..|w|] == w;
  }

  lemma TwoWords(a: string, b: string)
    requires IsWord(a) && IsWord(b)
    ensures Words(a + [' '] + b) == [a, b]
  {
    var s := a + [' '] + b;
    assert forall k :: 0 <= k < |s| ==> s[k] != '#';
    assert s[..Find(s, '#')] == s;
    assert s == a + ([' '] + b);
    WordEndConcat(a, [' '] + b);
    assert s[..|a|] == a && s[|a|..] == [' '] + b;
    assert ([' '] + b)[1..] == b;
    OneWord(b);
    assert WordsOf([' '] + b) == [b];
  }

  /** A blank at the end of a line adds no word. */
  lemma {:induction false} TrailingBlank(s: string, c: char)
    requires IsWhitespace(c)
    ensures WordsOf(s + [c]) == WordsOf(s)
    decreases |s|
  {
    if s == [] {
      assert (s + [c])[1..] == [];
    } else if IsWhitespace(s[0]) {
      assert (s + [c])[1..] == s[1..] + [c];
      TrailingBlank(s[1..], c);
    } else {
      var n := WordEnd(s);
      var w, rest := s[..n], s[n..];
      assert s + [c] == w + (rest + [c]);
      WordEndConcat(w, rest + [c]);
      assert (s + [c])[..n] == w && (s + [c])[n..] == rest + [c];
      TrailingBlank(rest, c);
    }
  }

  lemma StripCrKeepsWords(line: string)
    ensures Words(StripCr(line)) == Words(line)
  {
    if line != [] && line[|line| - 1] == '\r' {
      var short := line[..|line| - 1];
      var i := Find(line, '#');
      assert line == short + ['\r'];
      if i < |line| {
        FindIs(short, '#', i);
        assert short[..i] == line[..i];
      } else {
        FindIs(short, '#', |short|);
        assert short[..|short|] == short && line[..i] == line;
        TrailingBlank(short, '\r');
      }
    }
  }

  // ---- numbers ----

  predicate IsDigit(c: char) {
    '0' <= c <= '9'
  }

  function Decimal(word: string): nat
    requires forall k :: 0 <= k < |word| ==> IsDigit(word[k])
  {
    if word == [] then 0
    else 10 * Decimal(word[..|word| - 1]) + Digit(word[|word| - 1])
  }

  function Digit(c: char): (d: nat)
    requires IsDigit(c)
    ensures d < 10
  {
    c as int - '0' as int
  }

  lemma DigitsDiffer(a: char, b: char)
    requires IsDigit(a) && IsDigit(b) && Digit(a) == Digit(b)
    ensures a == b
  {
  }

  datatype NumberError = NotCanonical | NotANumber

  /** One number, one spelling: no sign, no leading zero, and in range. */
  function CanonicalNumber(word: string, max: nat): (r: Result<nat, NumberError>)
    ensures r.Ok? ==> r.value <= max
  {
    if word != [] && (word[0] == '+' || word[0] == '-') then Err(NotCanonical)
    else if |word| > 1 && word[0] == '0' then Err(NotCanonical)
    else if word == [] || exists k :: 0 <= k < |word| && !IsDigit(word[k]) then Err(NotANumber)
    else if Decimal(word) > max then Err(NotANumber)
    else Ok(Decimal(word))
  }

  lemma {:induction false} LeadingDigit(word: string)
    requires forall k :: 0 <= k < |word| ==> IsDigit(word[k])
    requires |word| > 1 && word[0] != '0'
    ensures Decimal(word) >= 10
    decreases |word|
  {
    var front := word[..|word| - 1];
    if |front| > 1 {
      LeadingDigit(front);
    } else {
      assert front == [word[0]];
      assert front[..0] == [];
      assert Decimal(front) == Digit(word[0]);
    }
  }

  /** No two words are accepted as the same number. */
  lemma {:induction false} OneSpelling(a: string, b: string, max: nat)
    requires CanonicalNumber(a, max).Ok? && CanonicalNumber(a, max) == CanonicalNumber(b, max)
    ensures a == b
    decreases |a|
  {
    var x, y := |a| - 1, |b| - 1;
    if |a| > 1 {
      LeadingDigit(a);
    }
    if |b| > 1 {
      LeadingDigit(b);
    }
    LastDigit(a, b);
    if |a| > 1 && |b| > 1 {
      OneSpelling(a[..x], b[..y], max);
    }
    if |a| == 1 || |b| == 1 {
      SingleDigits(a, b);
    }
    assert a == a[..x] + [a[x]] && b == b[..y] + [b[y]];
  }

  lemma LastDigit(a: string, b: string)
    requires forall k :: 0 <= k < |a| ==> IsDigit(a[k])
    requires forall k :: 0 <= k < |b| ==> IsDigit(b[k])
    requires a != [] && b != [] && Decimal(a) == Decimal(b)
    ensures a[|a| - 1] == b[|b| - 1]
    ensures Decimal(a[..|a| - 1]) == Decimal(b[..|b| - 1])
  {
    var x, y := a[|a| - 1], b[|b| - 1];
    TensAndUnits(Decimal(a[..|a| - 1]), Digit(x), Decimal(b[..|b| - 1]), Digit(y));
    DigitsDiffer(x, y);
  }

  lemma TensAndUnits(m: nat, x: nat, n: nat, y: nat)
    requires x < 10 && y < 10 && 10 * m + x == 10 * n + y
    ensures m == n && x == y
  {
  }

  lemma SingleDigits(a: string, b: string)
    requires forall k :: 0 <= k < |a| ==> IsDigit(a[k])
    requires forall k :: 0 <= k < |b| ==> IsDigit(b[k])
    requires a != [] && b != [] && Decimal(a) == Decimal(b)
    requires |a| == 1 || |b| == 1
    requires |a| > 1 ==> Decimal(a) >= 10
    requires |b| > 1 ==> Decimal(b) >= 10
    ensures |a| == |b| == 1
  {
    if |a| == 1 {
      assert a[..0] == [];
    }
    if |b| == 1 {
      assert b[..0] == [];
    }
  }

  // ---- hexadecimal ----

  const DIGITS: string := "0123456789abcdef"

  function Nibble(c: char): (r: Option<nat>)
    ensures r.Some? ==> r.value < 16
  {
    if '0' <= c <= '9' then Some(c as int - '0' as int)
    else if 'a' <= c <= 'f' then Some(c as int - 'a' as int + 10)
    else None
  }

  function HexByte(b: byte): string {
    [DIGITS[b / 16], DIGITS[b % 16]]
  }

  function Hex(bytes: seq<byte>): (r: string)
    ensures |r| == 2 * |bytes|
  {
    if bytes == [] then [] else Hex(bytes[..|bytes| - 1]) + HexByte(bytes[|bytes| - 1])
  }

  /** Lowercase pairs, nothing else. */
  function FromHex(word: string): (r: Option<seq<byte>>)
    ensures r.Some? ==> 2 * |r.value| == |word|
  {
    if word == [] then Some([])
    else if |word| == 1 then None
    else
      match FromHex(word[..|word| - 2])
      case None => None
      case Some(front) =>
        match (Nibble(word[|word| - 2]), Nibble(word[|word| - 1]))
        case (Some(high), Some(low)) => Some(front + [16 * high + low])
        case _ => None
  }

  function HexBytes(word: string, n: nat): (r: Option<seq<byte>>)
    ensures r.Some? ==> |r.value| == n
  {
    if |word| != 2 * n then None else FromHex(word)
  }

  lemma DigitReads(n: nat)
    requires n < 16
    ensures Nibble(DIGITS[n]) == Some(n) && !IsWhitespace(DIGITS[n]) && DIGITS[n] != '#'
  {
  }

  lemma {:induction false} HexRoundTrip(bytes: seq<byte>)
    ensures FromHex(Hex(bytes)) == Some(bytes)
  {
    if bytes != [] {
      var front, b := bytes[..|bytes| - 1], bytes[|bytes| - 1];
      assert bytes == front + [b];
      HexRoundTrip(front);
      PairReads(b);
      HexSnoc(front, b);
      FromHexSnoc(Hex(front), HexByte(b)[0], HexByte(b)[1]);
      assert HexByte(b) == [HexByte(b)[0], HexByte(b)[1]];
      assert 16 * (b / 16) + b % 16 == b;
    }
  }

  lemma FromHexSnoc(front: string, high: char, low: char)
    requires FromHex(front).Some? && Nibble(high).Some? && Nibble(low).Some?
    ensures FromHex(front + [high, low])
         == Some(FromHex(front).value + [16 * Nibble(high).value + Nibble(low).value])
  {
    var word := front + [high, low];
    assert word[..|word| - 2] == front && word[|word| - 2] == high && word[|word| - 1] == low;
  }

  lemma PairReads(b: byte)
    ensures Nibble(HexByte(b)[0]) == Some(b / 16) && Nibble(HexByte(b)[1]) == Some(b % 16)
  {
    DigitReads(b / 16);
    DigitReads(b % 16);
  }

  lemma {:induction false} HexIsPlain(bytes: seq<byte>)
    ensures forall k :: 0 <= k < |Hex(bytes)| ==> !IsWhitespace(Hex(bytes)[k]) && Hex(bytes)[k] != '#'
  {
    if bytes != [] {
      HexIsPlain(bytes[..|bytes| - 1]);
      DigitReads(bytes[|bytes| - 1] / 16);
      DigitReads(bytes[|bytes| - 1] % 16);
    }
  }

  /** And no two words are accepted as the same bytes. */
  lemma {:induction false} HexOneSpelling(word: string)
    requires FromHex(word).Some?
    ensures Hex(FromHex(word).value) == word
  {
    if word != [] {
      var front := word[..|word| - 2];
      var high, low := word[|word| - 2], word[|word| - 1];
      HexOneSpelling(front);
      PairWrites(high, low);
      HexSnoc(FromHex(front).value, 16 * Nibble(high).value + Nibble(low).value);
      assert word == front + [high, low];
    }
  }

  lemma HexSnoc(bytes: seq<byte>, b: byte)
    ensures Hex(bytes + [b]) == Hex(bytes) + HexByte(b)
  {
    assert (bytes + [b])[..|bytes|] == bytes;
  }

  lemma PairWrites(high: char, low: char)
    requires Nibble(high).Some? && Nibble(low).Some?
    ensures HexByte(16 * Nibble(high).value + Nibble(low).value) == [high, low]
  {
    var h, l := Nibble(high).value, Nibble(low).value;
    NibbleWrites(high);
    NibbleWrites(low);
    Sixteens(h, l);
    assert HexByte(16 * h + l) == [DIGITS[h], DIGITS[l]];
  }

  lemma Sixteens(h: nat, l: nat)
    requires l < 16
    ensures (16 * h + l) / 16 == h && (16 * h + l) % 16 == l
  {
  }

  lemma NibbleWrites(c: char)
    requires Nibble(c).Some?
    ensures DIGITS[Nibble(c).value] == c
  {
  }

  /** Filling the bytes pair by pair. */
  method ReadHex(word: string, n: nat) returns (r: Option<seq<byte>>)
    ensures r == HexBytes(word, n)
  {
    if |word| != 2 * n {
      return None;
    }
    var out: seq<byte> := [];
    for i := 0 to n
      invariant FromHex(word[..2 * i]) == Some(out)
    {
      var high, low := Nibble(word[2 * i]), Nibble(word[2 * i + 1]);
      PairSnoc(word, i);
      if high == None || low == None {
        HexStops(word, i + 1);
        return None;
      }
      out := out + [16 * high.value + low.value];
    }
    assert word[..2 * n] == word;
    return Some(out);
  }

  lemma PairSnoc(word: string, i: nat)
    requires 2 * i + 2 <= |word|
    ensures var longer := word[..2 * (i + 1)];
            longer != [] && longer[..|longer| - 2] == word[..2 * i]
            && longer[|longer| - 2] == word[2 * i] && longer[|longer| - 1] == word[2 * i + 1]
  {
  }

  lemma {:induction false} HexStops(word: string, i: nat)
    requires 2 * i <= |word| && |word| % 2 == 0 && FromHex(word[..2 * i]) == None
    ensures FromHex(word) == None
    decreases |word| - 2 * i
  {
    if 2 * i < |word| {
      PairSnoc(word, i);
      HexStops(word, i + 1);
    } else {
      assert word[..2 * i] == word;
    }
  }
}
