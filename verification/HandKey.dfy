/** A key that arrives by hand: Crockford's base 32, forgiving in how it is
    typed, with four check symbols drawn from the key's digest. */
module HandKey {
  import opened Basics

  type key = s: seq<byte> | |s| == 32 witness seq(32, _ => 0)
  type symbol = x: int | 0 <= x < 32

  const ALPHABET: string := "0123456789ABCDEFGHJKMNPQRSTVWXYZ"
  const BITS: nat := 5
  const KEY_SYMBOLS: nat := 52
  const CHECK_SYMBOLS: nat := 4
  const GROUP: nat := 4
  const SYMBOLS: nat := KEY_SYMBOLS + CHECK_SYMBOLS

  datatype HandError =
    | UnknownSymbol(found: char, at: nat)
    | WrongLength(count: nat)
    | CheckFailed
    | NotCanonical

  // ---- numbers and their bits, highest first ----

  function BitsOf(n: nat, width: nat): (r: seq<bool>)
    ensures |r| == width
  {
    if width == 0 then [] else BitsOf(n / 2, width - 1) + [n % 2 == 1]
  }

  function Number(bits: seq<bool>): (r: nat)
    ensures r < PowerOfTwo(|bits|)
  {
    if bits == [] then 0
    else 2 * Number(bits[..|bits| - 1]) + if bits[|bits| - 1] then 1 else 0
  }

  lemma Powers()
    ensures PowerOfTwo(5) == 32 && PowerOfTwo(8) == 256
  {
    assert PowerOfTwo(3) == 8;
    assert PowerOfTwo(6) == 2 * PowerOfTwo(5);
  }

  lemma {:induction false} NumberOfBits(n: nat, width: nat)
    requires n < PowerOfTwo(width)
    ensures Number(BitsOf(n, width)) == n
  {
    if width > 0 {
      NumberOfBits(n / 2, width - 1);
      assert BitsOf(n, width)[..width - 1] == BitsOf(n / 2, width - 1);
    }
  }

  lemma {:induction false} BitsOfNumber(bits: seq<bool>)
    ensures BitsOf(Number(bits), |bits|) == bits
  {
    if bits != [] {
      BitsOfNumber(bits[..|bits| - 1]);
    }
  }

  // ---- keys and symbols ----

  /** Bit `p` of a byte string: `bytes[p / 8] & (0x80 >> (p % 8)) != 0`. */
  function BitAt(bytes: seq<byte>, p: nat): bool
    requires p < 8 * |bytes|
  {
    BitsOf(bytes[p / 8], 8)[p % 8]
  }

  /** Bit `p` of a run of symbols. */
  function SymbolBit(symbols: seq<symbol>, p: nat): bool
    requires p < BITS * |symbols|
  {
    BitsOf(symbols[p / BITS], BITS)[p % BITS]
  }

  /** The five bits that symbol `index` takes, zero past the end. */
  function SymbolAt(bytes: seq<byte>, index: nat): symbol {
    Powers();
    Number(seq(BITS, b requires 0 <= b < BITS =>
      var p := index * BITS + b; p < 8 * |bytes| && BitAt(bytes, p)))
  }

  method ReadSymbol(bytes: seq<byte>, index: nat) returns (value: symbol)
    ensures value == SymbolAt(bytes, index)
  {
    ghost var bits := seq(BITS, b requires 0 <= b < BITS =>
      var p := index * BITS + b; p < 8 * |bytes| && BitAt(bytes, p));
    var v := 0;
    for bit := 0 to BITS
      invariant v == Number(bits[..bit])
    {
      var p := index * BITS + bit;
      var isSet := p < 8 * |bytes| && BitAt(bytes, p);
      assert bits[..bit + 1][..bit] == bits[..bit];
      v := 2 * v + if isSet then 1 else 0;
    }
    assert bits[..BITS] == bits;
    value := v;
  }

  function KeySymbols(k: key): (r: seq<symbol>)
    ensures |r| == KEY_SYMBOLS
  {
    seq(KEY_SYMBOLS, i requires 0 <= i => SymbolAt(k, i))
  }

  function KeyOf(symbols: seq<symbol>): key
    requires |symbols| >= KEY_SYMBOLS
  {
    Powers();
    seq(32, j requires 0 <= j < 32 =>
      Number(seq(8, b requires 0 <= b < 8 => SymbolBit(symbols, 8 * j + b))))
  }

  lemma SymbolsBits(k: key, p: nat)
    requires p < 256
    ensures SymbolBit(KeySymbols(k), p) == BitAt(k, p)
  {
    var index := p / BITS;
    var bits := seq(BITS, b requires 0 <= b < BITS =>
      var q := index * BITS + b; q < 8 * |k| && BitAt(k, q));
    assert KeySymbols(k)[index] == SymbolAt(k, index) == Number(bits);
    BitsOfNumber(bits);
    assert index * BITS + p % BITS == p;
  }

  lemma PlaceInByte(j: nat, i: nat)
    requires i < 8
    ensures (8 * j + i) / 8 == j && (8 * j + i) % 8 == i
  {
  }

  lemma KeyBits(symbols: seq<symbol>, p: nat)
    requires |symbols| >= KEY_SYMBOLS && p < 256
    ensures BitAt(KeyOf(symbols), p) == SymbolBit(symbols, p)
  {
    var j := p / 8;
    PlaceInByte(j, p % 8);
    var bits := seq(8, b requires 0 <= b < 8 => SymbolBit(symbols, 8 * j + b));
    assert KeyOf(symbols)[j] == Number(bits);
    BitsOfNumber(bits);
    assert 8 * j + p % 8 == p;
  }

  lemma SameByte(x: byte, y: byte)
    requires forall i :: 0 <= i < 8 ==> BitsOf(x, 8)[i] == BitsOf(y, 8)[i]
    ensures x == y
  {
    Powers();
    assert BitsOf(x, 8) == BitsOf(y, 8);
    NumberOfBits(x, 8);
    NumberOfBits(y, 8);
  }

  /** Two byte strings with the same bits are the same. */
  lemma SameBits(a: seq<byte>, b: seq<byte>)
    requires |a| == |b| && forall p :: 0 <= p < 8 * |a| ==> BitAt(a, p) == BitAt(b, p)
    ensures a == b
  {
    forall j | 0 <= j < |a|
      ensures a[j] == b[j]
    {
      forall i | 0 <= i < 8
        ensures BitsOf(a[j], 8)[i] == BitsOf(b[j], 8)[i]
      {
        PlaceInByte(j, i);
        assert BitAt(a, 8 * j + i) == BitAt(b, 8 * j + i);
      }
      SameByte(a[j], b[j]);
    }
  }

  lemma Place(j: nat, i: nat)
    requires i < BITS
    ensures (BITS * j + i) / BITS == j && (BITS * j + i) % BITS == i
  {
  }

  lemma SameSymbol(x: symbol, y: symbol)
    requires forall i :: 0 <= i < BITS ==> BitsOf(x, BITS)[i] == BitsOf(y, BITS)[i]
    ensures x == y
  {
    Powers();
    assert BitsOf(x, BITS) == BitsOf(y, BITS);
    NumberOfBits(x, BITS);
    NumberOfBits(y, BITS);
  }

  lemma SameSymbolBits(a: seq<symbol>, b: seq<symbol>)
    requires |a| == |b| && forall p :: 0 <= p < BITS * |a| ==> SymbolBit(a, p) == SymbolBit(b, p)
    ensures a == b
  {
    forall j | 0 <= j < |a|
      ensures a[j] == b[j]
    {
      forall i | 0 <= i < BITS
        ensures BitsOf(a[j], BITS)[i] == BitsOf(b[j], BITS)[i]
      {
        Place(j, i);
        assert SymbolBit(a, BITS * j + i) == SymbolBit(b, BITS * j + i);
      }
      SameSymbol(a[j], b[j]);
    }
  }

  lemma KeyRoundTrip(k: key, check: seq<symbol>)
    ensures KeyOf(KeySymbols(k) + check) == k
  {
    var symbols := KeySymbols(k) + check;
    forall p | 0 <= p < 256
      ensures BitAt(KeyOf(symbols), p) == BitAt(k, p)
    {
      KeyBits(symbols, p);
      SymbolsBits(k, p);
    }
    SameBits(KeyOf(symbols), k);
  }

  function Halved(n: nat, times: nat): nat {
    if times == 0 then n else Halved(n / 2, times - 1)
  }

  lemma {:induction false} BitIs(n: nat, width: nat, i: nat)
    requires i < width
    ensures BitsOf(n, width)[i] == (Halved(n, width - 1 - i) % 2 == 1)
  {
    if i < width - 1 {
      BitIs(n / 2, width - 1, i);
    }
  }

  lemma Sixteenths(v: symbol)
    ensures v % 16 == 0 <==> v % 2 == 0 && v / 2 % 2 == 0 && v / 2 / 2 % 2 == 0 && v / 2 / 2 / 2 % 2 == 0
  {
  }

  /** The four padding bits of the last key symbol. */
  lemma Padding(v: symbol)
    ensures v % 16 == 0 <==> !BitsOf(v, BITS)[1] && !BitsOf(v, BITS)[2]
                              && !BitsOf(v, BITS)[3] && !BitsOf(v, BITS)[4]
  {
    Sixteenths(v);
    BitIs(v, BITS, 1);
    BitIs(v, BITS, 2);
    BitIs(v, BITS, 3);
    BitIs(v, BITS, 4);
    assert Halved(v / 2 / 2, 1) == v / 2 / 2 / 2 && Halved(v / 2, 1) == v / 2 / 2;
    assert Halved(v / 2, 2) == v / 2 / 2 / 2;
  }

  /** A bit past the end of the key is never set in a key's symbols. */
  lemma PastTheEnd(k: key, b: nat)
    requires 1 <= b < BITS
    ensures !SymbolBit(KeySymbols(k), 255 + b)
  {
    var bits := seq(BITS, c requires 0 <= c < BITS =>
      var q := 51 * BITS + c; q < 8 * |k| && BitAt(k, q));
    assert KeySymbols(k)[51] == Number(bits);
    BitsOfNumber(bits);
  }

  lemma SymbolsRoundTrip(symbols: seq<symbol>)
    requires |symbols| == KEY_SYMBOLS && symbols[KEY_SYMBOLS - 1] % 16 == 0
    ensures KeySymbols(KeyOf(symbols)) == symbols
  {
    var k := KeyOf(symbols);
    forall p | 0 <= p < BITS * KEY_SYMBOLS
      ensures SymbolBit(KeySymbols(k), p) == SymbolBit(symbols, p)
    {
      if p < 256 {
        SymbolsBits(k, p);
        KeyBits(symbols, p);
      } else {
        Padding(symbols[51]);
        PastTheEnd(k, p - 255);
        assert !BitsOf(symbols[51], BITS)[p - 255];
      }
    }
    SameSymbolBits(KeySymbols(k), symbols);
  }

  lemma LastSymbolBits(symbols: seq<symbol>)
    requires |symbols| == KEY_SYMBOLS
    ensures forall b :: 1 <= b < BITS ==> SymbolBit(symbols, 255 + b) == BitsOf(symbols[51], BITS)[b]
  {
  }

  lemma KeySymbolsCanonical(k: key)
    ensures KeySymbols(k)[KEY_SYMBOLS - 1] % 16 == 0
  {
    var symbols := KeySymbols(k);
    PastTheEnd(k, 1);
    PastTheEnd(k, 2);
    PastTheEnd(k, 3);
    PastTheEnd(k, 4);
    LastSymbolBits(symbols);
    Padding(symbols[51]);
  }
}
