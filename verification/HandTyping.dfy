/** What somebody types, read symbol by symbol and checked against its digest. */
module HandTyping {
  import opened Basics
  import opened HandKey

  // ---- one character ----

  /** `char::is_whitespace`: the Unicode `White_Space` property. */
  predicate IsWhitespace(c: char) {
    var code := c as int;
    9 <= code <= 13 || code == 0x20 || code == 0x85 || code == 0xA0 || code == 0x1680
    || 0x2000 <= code <= 0x200A || code == 0x2028 || code == 0x2029 || code == 0x202F
    || code == 0x205F || code == 0x3000
  }

  /** Twenty-five characters have the property (Unicode, PropList.txt). */
  lemma WhitespaceIs(c: char)
    ensures IsWhitespace(c)
       <==> c in ['\t', '\n', '\U{B}', '\U{C}', '\r', ' ', '\U{85}', '\U{A0}', '\U{1680}', '\U{2000}',
                  '\U{2001}', '\U{2002}', '\U{2003}', '\U{2004}', '\U{2005}', '\U{2006}', '\U{2007}',
                  '\U{2008}', '\U{2009}', '\U{200A}', '\U{2028}', '\U{2029}', '\U{202F}', '\U{205F}',
                  '\U{3000}']
  {
  }

  predicate IsSeparator(c: char) {
    c == '-' || IsWhitespace(c)
  }

  /** `to_ascii_uppercase`. */
  function Upper(c: char): char {
    if 'a' <= c <= 'z' then (c as int - 32) as char else c
  }

  /** The `i`th character of the alphabet by its code. */
  function AlphabetCode(i: symbol): int {
    if i < 10 then 48 + i
    else if i < 18 then 65 + (i - 10)
    else if i < 20 then 74 + (i - 18)
    else if i < 22 then 77 + (i - 20)
    else if i < 27 then 80 + (i - 22)
    else 86 + (i - 27)
  }

  lemma AlphabetIs(i: symbol)
    ensures ALPHABET[i] as int == AlphabetCode(i)
  {
  }

  lemma AlphabetDistinct()
    ensures forall i: symbol, j: symbol :: ALPHABET[i] == ALPHABET[j] ==> i == j
  {
    forall i: symbol, j: symbol | ALPHABET[i] == ALPHABET[j]
      ensures i == j
    {
      AlphabetIs(i);
      AlphabetIs(j);
    }
  }

  /** Where a character stands in the alphabet. */
  function Position(c: char): (r: Option<symbol>)
    ensures r.Some? ==> ALPHABET[r.value] == c
    ensures r == None ==> forall i: symbol :: ALPHABET[i] != c
  {
    if exists i: symbol :: ALPHABET[i] == c then
      AlphabetDistinct();
      var i: symbol :| ALPHABET[i] == c;
      Some(i)
    else None
  }

  /** One character's value. `I` and `L` read as one and `O` as nought, in
      either case; `U` as nothing. */
  function ValueOf(found: char): Option<symbol> {
    var upper := Upper(found);
    if upper == 'I' || upper == 'L' then Some(1)
    else if upper == 'O' then Some(0)
    else if upper == 'U' then None
    else Position(upper)
  }

  /** A written symbol reads back as itself, and so does its lower case. */
  lemma WrittenReads(i: symbol)
    ensures ValueOf(ALPHABET[i]) == Some(i)
    ensures 'A' <= ALPHABET[i] <= 'Z' ==> ValueOf((ALPHABET[i] as int + 32) as char) == Some(i)
    ensures !IsSeparator(ALPHABET[i])
  {
    AlphabetIs(i);
    AlphabetDistinct();
    var c := ALPHABET[i];
    assert Upper(c) == c;
    assert Position(c) == Some(i);
    if 'A' <= c <= 'Z' {
      assert Upper((c as int + 32) as char) == c;
    }
  }

  /** The letters Crockford leaves out: three read as the digits they look like,
      and the fourth is refused. */
  lemma Confusables()
    ensures ValueOf('I') == ValueOf('i') == ValueOf('L') == ValueOf('l') == ValueOf('1') == Some(1)
    ensures ValueOf('O') == ValueOf('o') == ValueOf('0') == Some(0)
    ensures ValueOf('U') == ValueOf('u') == None
  {
    WrittenReads(0);
    WrittenReads(1);
  }

  // ---- a whole line ----

  /** The symbols typed so far, or the first character that is none. */
  function Typed(line: string): Result<seq<symbol>, HandError> {
    if line == [] then Ok([])
    else
      var last := line[|line| - 1];
      match Typed(line[..|line| - 1])
      case Err(error) => Err(error)
      case Ok(symbols) =>
        if IsSeparator(last) then Ok(symbols)
        else
          match ValueOf(last)
          case None => Err(UnknownSymbol(last, |symbols| + 1))
          case Some(v) => Ok(symbols + [v])
  }

  /** What the line says once its separators are gone. */
  function Stripped(line: string): string {
    if line == [] then []
    else
      Stripped(line[..|line| - 1])
      + if IsSeparator(line[|line| - 1]) then [] else [line[|line| - 1]]
  }

  predicate Known(chars: string) {
    forall i :: 0 <= i < |chars| ==> ValueOf(chars[i]).Some?
  }

  function Values(chars: string): (r: seq<symbol>)
    requires Known(chars)
    ensures |r| == |chars|
  {
    seq(|chars|, i requires 0 <= i < |chars| => ValueOf(chars[i]).value)
  }

  /** Separators never matter, and a character matters only by its value. */
  lemma {:induction false} TypedIs(line: string)
    ensures Known(Stripped(line)) <==> Typed(line).Ok?
    ensures Typed(line).Ok? ==> Typed(line).value == Values(Stripped(line))
  {
    if line != [] {
      var front, last := line[..|line| - 1], line[|line| - 1];
      TypedIs(front);
      if !IsSeparator(last) {
        var chars := Stripped(line);
        assert chars == Stripped(front) + [last];
        assert forall i :: 0 <= i < |Stripped(front)| ==> chars[i] == Stripped(front)[i];
        assert chars[|chars| - 1] == last;
      }
    }
  }

  /** A line that does not read is refused for the first character that is no symbol,
      with how many of them stand before it. */
  lemma {:induction false} TypedFailsExactly(line: string, k: nat)
    requires k < |Stripped(line)| && ValueOf(Stripped(line)[k]) == None && Known(Stripped(line)[..k])
    ensures Typed(line) == Err(UnknownSymbol(Stripped(line)[k], k + 1))
  {
    var front := line[..|line| - 1];
    if k < |Stripped(front)| {
      assert Stripped(front)[..k] == Stripped(line)[..k];
      TypedFailsExactly(front, k);
    } else {
      assert Stripped(front) == Stripped(line)[..k];
      TypedIs(front);
    }
  }

  /** Two lines that differ only in separators, case and the confusable letters
      read alike. */
  lemma ReadAlike(a: string, b: string)
    requires |Stripped(a)| == |Stripped(b)|
    requires forall i :: 0 <= i < |Stripped(a)| ==> ValueOf(Stripped(a)[i]) == ValueOf(Stripped(b)[i])
    requires Known(Stripped(b))
    ensures Typed(a) == Typed(b) && Typed(a).Ok?
  {
    TypedIs(a);
    TypedIs(b);
    assert Known(Stripped(a));
    assert Values(Stripped(a)) == Values(Stripped(b));
  }

  // ---- encoding ----

  function Check(hash: key -> key, k: key): (r: seq<symbol>)
    ensures |r| == CHECK_SYMBOLS
  {
    seq(CHECK_SYMBOLS, i requires 0 <= i => SymbolAt(hash(k), i))
  }

  /** Every symbol of a written key: the key, then its check. */
  function EncodedSymbols(hash: key -> key, k: key): (r: seq<symbol>)
    ensures |r| == SYMBOLS
  {
    KeySymbols(k) + Check(hash, k)
  }

  /** Uppercase, in groups of four. */
  function Written(symbols: seq<symbol>): string {
    if symbols == [] then []
    else
      var last := |symbols| - 1;
      Written(symbols[..last])
      + (if last > 0 && last % GROUP == 0 then ['-'] else []) + [ALPHABET[symbols[last]]]
  }

  method Write(symbols: seq<symbol>) returns (out: string)
    ensures out == Written(symbols)
  {
    out := [];
    for i := 0 to |symbols|
      invariant out == Written(symbols[..i])
    {
      assert symbols[..i + 1][..i] == symbols[..i];
      if i > 0 && i % GROUP == 0 {
        out := out + ['-'];
      }
      out := out + [ALPHABET[symbols[i]]];
    }
    assert symbols[..|symbols|] == symbols;
  }

  method CheckOf(hash: key -> key, k: key) returns (check: seq<symbol>)
    ensures check == Check(hash, k)
  {
    var digest := hash(k);
    check := [];
    for index := 0 to CHECK_SYMBOLS
      invariant check == Check(hash, k)[..index]
    {
      var s := ReadSymbol(digest, index);
      check := check + [s];
    }
  }

  method Encode(hash: key -> key, k: key) returns (out: string)
    ensures out == Written(EncodedSymbols(hash, k))
  {
    var symbols: seq<symbol> := [];
    for index := 0 to KEY_SYMBOLS
      invariant symbols == KeySymbols(k)[..index]
    {
      var s := ReadSymbol(k, index);
      symbols := symbols + [s];
    }
    assert KeySymbols(k)[..KEY_SYMBOLS] == KeySymbols(k);
    var check := CheckOf(hash, k);
    out := Write(symbols + check);
  }

  lemma WrittenSnoc(front: seq<symbol>, s: symbol)
    ensures var line := if front != [] && |front| % GROUP == 0 then Written(front) + ['-']
                        else Written(front);
            Written(front + [s]) == line + [ALPHABET[s]]
  {
    WrittenLast(front + [s]);
    assert (front + [s])[..|front|] == front && (front + [s])[|front|] == s;
    assert Written(front) + [] == Written(front);
  }

  lemma WrittenLast(symbols: seq<symbol>)
    requires symbols != []
    ensures var n := |symbols| - 1;
            Written(symbols)
            == Written(symbols[..n]) + (if n > 0 && n % GROUP == 0 then ['-'] else [])
               + [ALPHABET[symbols[n]]]
  {
  }

  /** A card is the symbols in order, with a dash after every fourth but the last. */
  lemma {:induction false} WrittenInGroups(symbols: seq<symbol>, k: nat)
    ensures |Written(symbols)| == |symbols| + if symbols == [] then 0 else (|symbols| - 1) / GROUP
    ensures k < |Written(symbols)| ==>
      0 <= k - k / (GROUP + 1) < |symbols|
      && Written(symbols)[k]
         == if k % (GROUP + 1) == GROUP then '-' else ALPHABET[symbols[k - k / (GROUP + 1)]]
  {
    if symbols != [] {
      WrittenInGroups(symbols[..|symbols| - 1], k);
    }
  }

  lemma {:induction false} WrittenIsTyped(symbols: seq<symbol>)
    ensures Typed(Written(symbols)) == Ok(symbols)
  {
    if symbols != [] {
      var front, s := symbols[..|symbols| - 1], symbols[|symbols| - 1];
      assert symbols == front + [s];
      WrittenIsTyped(front);
      SymbolTyped(front, Written(front), s);
      WrittenSnoc(front, s);
    }
  }

  lemma SymbolTyped(front: seq<symbol>, line: string, s: symbol)
    requires Typed(line) == Ok(front)
    ensures Typed(line + [ALPHABET[s]]) == Ok(front + [s])
    ensures Typed(line + ['-'] + [ALPHABET[s]]) == Ok(front + [s])
  {
    WrittenReads(s);
    TypedSnoc(line, ALPHABET[s]);
    SeparatorSnoc(line);
    TypedSnoc(line + ['-'], ALPHABET[s]);
  }

  lemma SeparatorSnoc(line: string)
    requires Typed(line).Ok?
    ensures Typed(line + ['-']) == Typed(line)
  {
    var longer := line + ['-'];
    assert longer[..|longer| - 1] == line && longer[|longer| - 1] == '-';
  }

  lemma TypedSnoc(line: string, c: char)
    requires Typed(line).Ok? && !IsSeparator(c) && ValueOf(c).Some?
    ensures Typed(line + [c]) == Ok(Typed(line).value + [ValueOf(c).value])
  {
    var longer := line + [c];
    assert longer[..|longer| - 1] == line && longer[|longer| - 1] == c;
  }

  // ---- decoding ----

  function Decoded(hash: key -> key, line: string): Result<key, HandError> {
    match Typed(line)
    case Err(error) => Err(error)
    case Ok(symbols) =>
      if |symbols| != SYMBOLS then Err(WrongLength(|symbols|))
      else if symbols[KEY_SYMBOLS - 1] % 16 != 0 then Err(NotCanonical)
      else if symbols[KEY_SYMBOLS..] != Check(hash, KeyOf(symbols)) then Err(CheckFailed)
      else Ok(KeyOf(symbols))
  }

  /** Reading the line into the symbols' buffer. What does not fit it is counted
      and no more. */
  method ReadLine(line: string, symbols: array<symbol>) returns (r: Result<nat, HandError>)
    requires symbols.Length == SYMBOLS
    modifies symbols
    ensures match Typed(line)
            case Err(error) => r == Err(error)
            case Ok(typed) =>
              r == Ok(|typed|) && (|typed| == SYMBOLS ==> symbols[..] == typed)
  {
    var count := 0;
    ghost var typed: seq<symbol> := [];
    for i := 0 to |line|
      invariant Typed(line[..i]) == Ok(typed) && |typed| == count
      invariant forall k :: 0 <= k < count && k < SYMBOLS ==> symbols[k] == typed[k]
    {
      var found := line[i];
      assert line[..i + 1][..i] == line[..i];
      if !IsSeparator(found) {
        var value := ValueOf(found);
        if value == None {
          TypedStops(line, i + 1);
          return Err(UnknownSymbol(found, count + 1));
        }
        if count < SYMBOLS {
          symbols[count] := value.value;
        }
        typed := typed + [value.value];
        count := count + 1;
      }
    }
    assert line[..|line|] == line;
    return Ok(count);
  }

  /** Once a character is refused, the rest of the line changes nothing. */
  lemma {:induction false} TypedStops(line: string, i: nat)
    requires i <= |line| && Typed(line[..i]).Err?
    ensures Typed(line) == Typed(line[..i])
    decreases |line| - i
  {
    if i < |line| {
      assert line[..i + 1][..i] == line[..i];
      TypedStops(line, i + 1);
    } else {
      assert line[..i] == line;
    }
  }

  /** `byte |= 0x80 >> bit`. */
  function WithBit(b: byte, bit: nat): byte
    requires bit < 8
  {
    Powers();
    Number(BitsOf(b, 8)[bit := true])
  }

  lemma BitSet(bytes: seq<byte>, p: nat)
    requires p < 8 * |bytes|
    ensures var after := bytes[p / 8 := WithBit(bytes[p / 8], p % 8)];
            forall q :: 0 <= q < 8 * |bytes| ==> BitAt(after, q) == (BitAt(bytes, q) || q == p)
  {
    BitsOfNumber(BitsOf(bytes[p / 8], 8)[p % 8 := true]);
  }

  /** The bits of the first `done` positions are the symbols', the rest clear. */
  ghost predicate Gathered(bytes: seq<byte>, symbols: seq<symbol>, done: nat) {
    |bytes| == 32 && |symbols| == SYMBOLS
    && forall p :: 0 <= p < 256 ==> BitAt(bytes, p) == (p < done && SymbolBit(symbols, p))
  }

  lemma NothingGathered(symbols: seq<symbol>)
    requires |symbols| == SYMBOLS
    ensures Gathered(seq(32, _ => 0), symbols, 0)
  {
    Powers();
    NoBits(8);
  }

  lemma {:induction false} NoBits(width: nat)
    ensures forall i :: 0 <= i < width ==> !BitsOf(0, width)[i]
  {
    if width > 0 {
      NoBits(width - 1);
    }
  }

  method GatherBit(bytes: array<byte>, symbols: seq<symbol>, index: nat, bit: nat)
    requires bytes.Length == 32 && index < KEY_SYMBOLS && bit < BITS
    requires Gathered(bytes[..], symbols, index * BITS + bit)
    modifies bytes
    ensures Gathered(bytes[..], symbols, index * BITS + bit + 1)
  {
    var p := index * BITS + bit;
    Place(index, bit);
    GatheredNext(bytes[..], symbols, p);
    if p < 256 && BitsOf(symbols[index], BITS)[bit] {
      bytes[p / 8] := WithBit(bytes[p / 8], p % 8);
      assert bytes[..] == old(bytes[..])[p / 8 := WithBit(old(bytes[p / 8]), p % 8)];
    }
  }

  lemma GatheredNext(bytes: seq<byte>, symbols: seq<symbol>, p: nat)
    requires Gathered(bytes, symbols, p) && p < BITS * KEY_SYMBOLS
    ensures p >= 256 || !SymbolBit(symbols, p) ==> Gathered(bytes, symbols, p + 1)
    ensures p < 256 && SymbolBit(symbols, p) ==>
      Gathered(bytes[p / 8 := WithBit(bytes[p / 8], p % 8)], symbols, p + 1)
  {
    if p < 256 {
      BitSet(bytes, p);
    }
  }

  method KeyFrom(symbols: seq<symbol>) returns (k: key)
    requires |symbols| == SYMBOLS
    ensures k == KeyOf(symbols)
  {
    var bytes := new byte[32](_ => 0);
    NothingGathered(symbols);
    assert bytes[..] == seq(32, _ => 0);
    for index := 0 to KEY_SYMBOLS
      invariant Gathered(bytes[..], symbols, index * BITS)
    {
      for bit := 0 to BITS
        invariant Gathered(bytes[..], symbols, index * BITS + bit)
      {
        GatherBit(bytes, symbols, index, bit);
      }
    }
    k := bytes[..];
    forall p | 0 <= p < 256
      ensures BitAt(k, p) == BitAt(KeyOf(symbols), p)
    {
      KeyBits(symbols, p);
    }
    SameBits(k, KeyOf(symbols));
  }

  method Decode(hash: key -> key, line: string) returns (r: Result<key, HandError>)
    ensures r == Decoded(hash, line)
  {
    var buffer := new symbol[SYMBOLS](_ => 0);
    var counted := ReadLine(line, buffer);
    if counted.Err? {
      return Err(counted.error);
    }
    if counted.value != SYMBOLS {
      return Err(WrongLength(counted.value));
    }
    var symbols := buffer[..];
    if symbols[KEY_SYMBOLS - 1] % 16 != 0 {
      return Err(NotCanonical);
    }
    var k := KeyFrom(symbols);
    var check := CheckOf(hash, k);
    if symbols[KEY_SYMBOLS..] != check {
      return Err(CheckFailed);
    }
    return Ok(k);
  }

  /** A line is read as a key exactly if its symbols are the 56 that the key is
      written with: every spelling of them decodes, and nothing else does. */
  lemma DecodesExactly(hash: key -> key, line: string, k: key)
    ensures Decoded(hash, line) == Ok(k) <==> Typed(line) == Ok(EncodedSymbols(hash, k))
  {
    if Typed(line) == Ok(EncodedSymbols(hash, k)) {
      var symbols := EncodedSymbols(hash, k);
      KeyRoundTrip(k, Check(hash, k));
      KeySymbolsCanonical(k);
      assert symbols[KEY_SYMBOLS - 1] == KeySymbols(k)[KEY_SYMBOLS - 1];
      assert symbols[KEY_SYMBOLS..] == Check(hash, k);
    }
    if Decoded(hash, line) == Ok(k) {
      var symbols := Typed(line).value;
      var front := symbols[..KEY_SYMBOLS];
      SymbolsRoundTrip(front);
      KeyOfPrefix(symbols);
      assert symbols == front + symbols[KEY_SYMBOLS..];
    }
  }

  lemma KeyOfPrefix(symbols: seq<symbol>)
    requires |symbols| >= KEY_SYMBOLS
    ensures KeyOf(symbols) == KeyOf(symbols[..KEY_SYMBOLS])
  {
    var front := symbols[..KEY_SYMBOLS];
    forall p | 0 <= p < 256
      ensures BitAt(KeyOf(symbols), p) == BitAt(KeyOf(front), p)
    {
      KeyBits(symbols, p);
      KeyBits(front, p);
    }
    SameBits(KeyOf(symbols), KeyOf(front));
  }

  /** Every key comes back from its card, however it was copied: any separators,
      either case, and `I`, `L` or `O` for the digits they look like. */
  lemma CardRoundTrip(hash: key -> key, k: key, line: string)
    requires var card := Written(EncodedSymbols(hash, k));
             |Stripped(line)| == |Stripped(card)|
             && forall i :: 0 <= i < |Stripped(card)| ==>
                  ValueOf(Stripped(line)[i]) == ValueOf(Stripped(card)[i])
    ensures Decoded(hash, line) == Ok(k)
  {
    var card := Written(EncodedSymbols(hash, k));
    WrittenIsTyped(EncodedSymbols(hash, k));
    TypedIs(card);
    ReadAlike(line, card);
    DecodesExactly(hash, line, k);
  }


  /** The check symbols are the first symbols of the key's hash, written as a key
      would be. */
  lemma CheckIs(hash: key -> key, k: key)
    ensures CHECK_SYMBOLS <= KEY_SYMBOLS && Check(hash, k) == KeySymbols(hash(k))[..CHECK_SYMBOLS]
    ensures EncodedSymbols(hash, k)[..KEY_SYMBOLS] == KeySymbols(k)
    ensures EncodedSymbols(hash, k)[KEY_SYMBOLS..] == Check(hash, k)
  {
  }
}
