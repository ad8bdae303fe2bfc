/** CRC-32 (IEEE 802.3, section 3.2.9): the table-driven checksum of the
    journal's records, its bit-serial definition, and what a changed payload
    does to it. A 32-bit word is written as its bits, least significant first,
    so `w[0]` is `w & 1`, `w[8..]` is `w >> 8` and `Xor` is `^`. */
module Crc {
  import opened Basics
  import opened BitStrings

  type word = w: seq<bool> | |w| == 32 witness seq(32, _ => false)

  // ---- bits ----

  function Zeros(n: nat): (r: seq<bool>)
    ensures |r| == n
  {
    seq(n, _ => false)
  }

  function Xor(x: seq<bool>, y: seq<bool>): (r: seq<bool>)
    requires |x| == |y|
    ensures |r| == |x| && forall i :: 0 <= i < |x| ==> r[i] == (x[i] != y[i])
  {
    seq(|x|, i requires 0 <= i < |x| => x[i] != y[i])
  }

  /** `u32::from(byte)`, and more generally bits with zeros above them. */
  function Pad(bits: seq<bool>): word
    requires |bits| <= 32
  {
    bits + Zeros(32 - |bits|)
  }

  // ---- the bit-serial definition ----

  const POLYNOMIAL: u32 := 0xEDB8_8320

  function Polynomial(): word {
    Bits(POLYNOMIAL, 32)
  }

  function Shift(register: word): word {
    register[1..] + [false]
  }

  /** One bit of the message through the shift register. */
  function BitStep(register: word, bit: bool): word {
    if register[0] != bit then Xor(Shift(register), Polynomial()) else Shift(register)
  }

  function Serial(register: word, message: seq<bool>): word
    decreases |message|
  {
    if message == [] then register else Serial(BitStep(register, message[0]), message[1..])
  }

  /** The message a byte string stands for: each byte's low bit first. */
  function Message(bytes: seq<byte>): (r: seq<bool>)
    ensures |r| == 8 * |bytes|
    decreases |bytes|
  {
    if bytes == [] then [] else Bits(bytes[0], 8) + Message(bytes[1..])
  }

  function Ones(): word {
    seq(32, _ => true)
  }

  /** The checksum: every bit of the payload divided in turn, the register
      preset to ones and complemented at the end. */
  function Crc32(bytes: seq<byte>): word {
    Xor(Serial(Ones(), Message(bytes)), Ones())
  }

  // ---- the register without its input ----

  function Divide(register: word): word {
    BitStep(register, false)
  }

  function DivideN(n: nat, register: word): word {
    if n == 0 then register else DivideN(n - 1, Divide(register))
  }

  lemma TopOfPolynomial()
    ensures Polynomial()[31]
  {
    PolynomialIsGenerator();
  }

  lemma DivideXor(x: word, y: word)
    ensures Divide(Xor(x, y)) == Xor(Divide(x), Divide(y))
  {
    assert Shift(Xor(x, y)) == Xor(Shift(x), Shift(y));
  }

  lemma {:induction false} DivideNXor(n: nat, x: word, y: word)
    ensures DivideN(n, Xor(x, y)) == Xor(DivideN(n, x), DivideN(n, y))
  {
    if n > 0 {
      DivideXor(x, y);
      DivideNXor(n - 1, Divide(x), Divide(y));
    }
  }

  lemma XorCancel(x: seq<bool>, y: seq<bool>, z: seq<bool>)
    requires |x| == |y| == |z| && Xor(x, z) == Xor(y, z)
    ensures x == y
  {
    forall i | 0 <= i < |x|
      ensures x[i] == y[i]
    {
      assert Xor(x, z)[i] == Xor(y, z)[i];
    }
  }

  lemma XorCommutes(x: seq<bool>, y: seq<bool>)
    requires |x| == |y|
    ensures Xor(x, y) == Xor(y, x)
  {
  }

  lemma TopTells(x: word, bit: bool)
    ensures BitStep(x, bit)[31] == (x[0] != bit)
  {
    TopOfPolynomial();
  }

  lemma ShiftInjective(x: word, y: word)
    requires x[0] == y[0] && Shift(x) == Shift(y)
    ensures x == y
  {
    assert x[1..] == Shift(x)[..31] == Shift(y)[..31] == y[1..];
    assert x == [x[0]] + x[1..] && y == [y[0]] + y[1..];
  }

  /** The polynomial's top bit is set, so a division forgets nothing. */
  lemma BitStepInjective(x: word, y: word, bit: bool)
    requires BitStep(x, bit) == BitStep(y, bit)
    ensures x == y
  {
    TopTells(x, bit);
    TopTells(y, bit);
    if x[0] != bit {
      XorCancel(Shift(x), Shift(y), Polynomial());
    }
    ShiftInjective(x, y);
  }

  lemma {:induction false} SerialInjective(x: word, y: word, message: seq<bool>)
    requires Serial(x, message) == Serial(y, message)
    ensures x == y
    decreases |message|
  {
    if message != [] {
      SerialInjective(BitStep(x, message[0]), BitStep(y, message[0]), message[1..]);
      BitStepInjective(x, y, message[0]);
    }
  }

  lemma {:induction false} DivideNInjective(n: nat, x: word, y: word)
    requires DivideN(n, x) == DivideN(n, y)
    ensures x == y
  {
    if n > 0 {
      DivideNInjective(n - 1, Divide(x), Divide(y));
      BitStepInjective(x, y, false);
    }
  }

  lemma ShiftInput(register: word, message: seq<bool>)
    requires 0 < |message| <= 32
    ensures Shift(Xor(register, Pad(message))) == Xor(Shift(register), Pad(message[1..]))
  {
    assert Shift(Pad(message)) == Pad(message[1..]);
    assert Shift(Xor(register, Pad(message))) == Xor(Shift(register), Shift(Pad(message)));
  }

  lemma XorSwap(x: word, y: word, z: word)
    ensures Xor(Xor(x, y), z) == Xor(Xor(x, z), y)
  {
  }

  /** Up to 32 message bits may be added to the register before dividing. */
  lemma {:induction false} SerialIsDivide(register: word, message: seq<bool>)
    requires |message| <= 32
    ensures Serial(register, message) == DivideN(|message|, Xor(register, Pad(message)))
    decreases |message|
  {
    if message == [] {
      assert Xor(register, Pad([])) == register;
    } else {
      var rest := message[1..];
      var x := Xor(register, Pad(message));
      SerialIsDivide(BitStep(register, message[0]), rest);
      assert x[0] == (register[0] != message[0]);
      ShiftInput(register, message);
      XorSwap(Shift(register), Pad(rest), Polynomial());
      assert Divide(x) == Xor(BitStep(register, message[0]), Pad(rest));
    }
  }

  lemma {:induction false} SerialSplit(register: word, a: seq<bool>, b: seq<bool>)
    ensures Serial(register, a + b) == Serial(Serial(register, a), b)
    decreases |a|
  {
    if a == [] {
      assert a + b == b;
    } else {
      assert (a + b)[1..] == a[1..] + b;
      SerialSplit(BitStep(register, a[0]), a[1..], b);
    }
  }

  lemma {:induction false} MessageSplit(a: seq<byte>, b: seq<byte>)
    ensures Message(a + b) == Message(a) + Message(b)
    decreases |a|
  {
    if a == [] {
      assert a + b == b;
    } else {
      assert (a + b)[1..] == a[1..] + b;
      MessageSplit(a[1..], b);
    }
  }

  // ---- the table ----

  lemma ShiftZeros(n: nat, high: seq<bool>)
    requires 0 < n && n + |high| == 32
    ensures Divide(Zeros(n) + high) == Zeros(n - 1) + (high + [false])
  {
    var w := Zeros(n) + high;
    assert Zeros(n)[1..] == Zeros(n - 1);
    assert !w[0] && w[1..] == Zeros(n - 1) + high;
    Associative(Zeros(n - 1), high, [false]);
  }

  /** Divisions of a word whose low bits are clear only shift it. */
  lemma {:induction false} DivideZeros(n: nat, high: seq<bool>)
    requires n + |high| == 32
    ensures DivideN(n, Zeros(n) + high) == high + Zeros(n)
  {
    if n == 0 {
      assert Zeros(0) + high == high && high + Zeros(0) == high;
    } else {
      ShiftZeros(n, high);
      DivideZeros(n - 1, high + [false]);
      assert [false] + Zeros(n - 1) == Zeros(n);
      assert high + [false] + Zeros(n - 1) == high + ([false] + Zeros(n - 1));
    }
  }

  lemma LowBitsDivide(register: word, n: nat)
    requires n <= 32
    ensures DivideN(n, register)
         == Xor(register[n..] + Zeros(n), DivideN(n, Pad(register[..n])))
  {
    var high := register[n..];
    assert register == Xor(Zeros(n) + high, Pad(register[..n]));
    DivideZeros(n, high);
    DivideNXor(n, Zeros(n) + high, Pad(register[..n]));
  }

  /** Why one lookup on the low byte may stand for eight divisions. */
  lemma TableStep(register: word)
    ensures DivideN(8, register)
         == Xor(register[8..] + Zeros(8), DivideN(8, Pad(register[..8])))
  {
    LowBitsDivide(register, 8);
  }

  predicate IsTable(table: seq<word>) {
    |table| == 256 && forall i: byte :: table[i] == DivideN(8, Pad(Bits(i, 8)))
  }

  /** One entry: eight steps of the division. */
  method TableEntry(start: word) returns (value: word)
    ensures value == DivideN(8, start)
  {
    value := start;
    var bit := 0;
    while bit < 8
      invariant 0 <= bit <= 8
      invariant DivideN(8 - bit, value) == DivideN(8, start)
    {
      value := if value[0] then Xor(Shift(value), Polynomial()) else Shift(value);
      bit := bit + 1;
    }
  }

  /** The lookup table, filled the way the build fills it. */
  method BuildTable() returns (table: array<word>)
    ensures fresh(table) && IsTable(table[..])
  {
    table := new word[256];
    var index := 0;
    while index < 256
      invariant 0 <= index <= 256 && fresh(table) && table.Length == 256
      invariant forall i: byte :: i < index ==> table[i] == DivideN(8, Pad(Bits(i, 8)))
    {
      var value := TableEntry(Pad(Bits(index, 8)));
      table[index] := value;
      index := index + 1;
    }
  }

  /** The checksum as the journal computes it: one lookup a byte. */
  method TableCrc32(table: array<word>, bytes: seq<byte>) returns (checksum: word)
    requires IsTable(table[..])
    ensures checksum == Crc32(bytes)
  {
    var crc := Ones();
    for at := 0 to |bytes|
      invariant crc == Serial(Ones(), Message(bytes[..at]))
    {
      var index := ByteOf(Xor(crc, Pad(Bits(bytes[at], 8)))[..8]);
      var next := Xor(crc[8..] + Zeros(8), table[index]);
      assert next == Serial(crc, Bits(bytes[at], 8)) by {
        LookupStep(crc, bytes[at], table[..]);
        assert table[index] == table[..][index];
      }
      crc := next;
      NextByte(bytes, at);
    }
    assert bytes[..|bytes|] == bytes;
    checksum := Xor(crc, Ones());
  }

  lemma LookupStep(crc: word, b: byte, table: seq<word>)
    requires IsTable(table)
    ensures Xor(crc[8..] + Zeros(8), table[ByteOf(Xor(crc, Pad(Bits(b, 8)))[..8])])
         == Serial(crc, Bits(b, 8))
  {
    var x := Xor(crc, Pad(Bits(b, 8)));
    SerialIsDivide(crc, Bits(b, 8));
    TableStep(x);
    TableAt(table, x[..8]);
    assert x[8..] == crc[8..];
  }

  lemma TableAt(table: seq<word>, low: seq<bool>)
    requires IsTable(table) && |low| == 8
    ensures table[ByteOf(low)] == DivideN(8, Pad(low))
  {
    BitsOfByte(low);
  }

  lemma NextByte(bytes: seq<byte>, at: nat)
    requires at < |bytes|
    ensures Serial(Ones(), Message(bytes[..at + 1]))
         == Serial(Serial(Ones(), Message(bytes[..at])), Bits(bytes[at], 8))
  {
    assert bytes[..at + 1] == bytes[..at] + [bytes[at]];
    MessageSplit(bytes[..at], [bytes[at]]);
    assert Message([bytes[at]]) == Bits(bytes[at], 8);
    SerialSplit(Ones(), Message(bytes[..at]), Bits(bytes[at], 8));
  }

  // ---- what a changed payload does ----

  lemma PadInjective(start: word, x: seq<bool>, y: seq<bool>)
    requires |x| == |y| <= 32 && Xor(start, Pad(x)) == Xor(start, Pad(y))
    ensures x == y
  {
    XorCommutes(start, Pad(x));
    XorCommutes(start, Pad(y));
    XorCancel(Pad(x), Pad(y), start);
    assert x == Pad(x)[..|x|] && y == Pad(y)[..|y|];
  }

  /** Two messages of one length that differ only inside 32 consecutive bits
      never leave the register in the same state. */
  lemma BurstChangesRegister(
    register: word, before: seq<bool>, x: seq<bool>, y: seq<bool>, after: seq<bool>)
    requires |x| == |y| <= 32 && x != y
    ensures Serial(register, before + x + after) != Serial(register, before + y + after)
  {
    var start := Serial(register, before);
    SerialSplit(register, before, x);
    SerialSplit(register, before, y);
    SerialSplit(register, before + x, after);
    SerialSplit(register, before + y, after);
    SerialIsDivide(start, x);
    SerialIsDivide(start, y);
    if Serial(register, before + x + after) == Serial(register, before + y + after) {
      SerialInjective(Serial(start, x), Serial(start, y), after);
      DivideNInjective(|x|, Xor(start, Pad(x)), Xor(start, Pad(y)));
      PadInjective(start, x, y);
    }
  }

  lemma {:induction false} MessageInjective(a: seq<byte>, b: seq<byte>)
    requires |a| == |b| && Message(a) == Message(b)
    ensures a == b
    decreases |a|
  {
    if a != [] {
      assert Bits(a[0], 8) == Message(a)[..8] && Bits(b[0], 8) == Message(b)[..8];
      assert Message(a[1..]) == Message(a)[8..] && Message(b[1..]) == Message(b)[8..];
      ByteOfBits(a[0]);
      ByteOfBits(b[0]);
      MessageInjective(a[1..], b[1..]);
      assert a == [a[0]] + a[1..] && b == [b[0]] + b[1..];
    }
  }

  /** Two payloads of one length that differ only inside four consecutive
      bytes never share a checksum. */
  lemma BurstChangesChecksum(before: seq<byte>, x: seq<byte>, y: seq<byte>, after: seq<byte>)
    requires |x| == |y| <= 4 && x != y
    ensures Crc32(before + x + after) != Crc32(before + y + after)
  {
    if Message(x) == Message(y) {
      MessageInjective(x, y);
    }
    MessageSplit(before, x);
    MessageSplit(before, y);
    MessageSplit(before + x, after);
    MessageSplit(before + y, after);
    BurstChangesRegister(Ones(), Message(before), Message(x), Message(y), Message(after));
    if Crc32(before + x + after) == Crc32(before + y + after) {
      XorCancel(Serial(Ones(), Message(before + x + after)),
                Serial(Ones(), Message(before + y + after)), Ones());
    }
  }

  // ---- the stored form ----

  /** `crc.to_le_bytes()`. */
  function ChecksumBytes(crc: word): (r: seq<byte>)
    ensures |r| == 4
  {
    [ByteOf(crc[..8]), ByteOf(crc[8..16]), ByteOf(crc[16..24]), ByteOf(crc[24..])]
  }

  lemma ChecksumBytesInjective(x: word, y: word)
    requires ChecksumBytes(x) == ChecksumBytes(y)
    ensures x == y
  {
    var a, b := ChecksumBytes(x), ChecksumBytes(y);
    assert a[0] == b[0] && a[1] == b[1] && a[2] == b[2] && a[3] == b[3];
    ByteOfInjective(x[..8], y[..8]);
    ByteOfInjective(x[8..16], y[8..16]);
    ByteOfInjective(x[16..24], y[16..24]);
    ByteOfInjective(x[24..], y[24..]);
    Quarters(x);
    Quarters(y);
  }

  lemma ByteOfInjective(x: seq<bool>, y: seq<bool>)
    requires |x| == |y| == 8 && ByteOf(x) == ByteOf(y)
    ensures x == y
  {
    BitsOfByte(x);
    BitsOfByte(y);
  }

  lemma Quarters(x: word)
    ensures x == x[..8] + x[8..16] + x[16..24] + x[24..]
  {
  }


  // ---- which checksum it is ----

  /** The powers of x in the generator polynomial, below x^32 (IEEE 802.3, section
      3.2.9). */
  predicate InGenerator(power: nat) {
    power in {0, 1, 2, 4, 5, 7, 8, 10, 11, 12, 16, 22, 23, 26}
  }

  /** Reflected: the highest power stands first. */
  function Generator(): word {
    seq(32, i requires 0 <= i < 32 => InGenerator(31 - i))
  }

  function Digit(bit: bool): nat {
    if bit then 1 else 0
  }

  function Four(bits: seq<bool>, i: nat): nat
    requires i + 4 <= |bits|
  {
    Digit(bits[i]) + 2 * Digit(bits[i + 1]) + 4 * Digit(bits[i + 2]) + 8 * Digit(bits[i + 3])
  }

  lemma OneBit(bits: seq<bool>, i: nat)
    requires i < |bits|
    ensures FromBits(bits[i..]) == Digit(bits[i]) + 2 * FromBits(bits[i + 1..])
  {
    assert bits[i..][1..] == bits[i + 1..];
  }

  lemma FourBits(bits: seq<bool>, i: nat, four: nat, rest: nat)
    requires i + 4 <= |bits| && Four(bits, i) == four && FromBits(bits[i + 4..]) == rest
    ensures FromBits(bits[i..]) == four + 16 * rest
  {
    OneBit(bits, i);
    OneBit(bits, i + 1);
    OneBit(bits, i + 2);
    OneBit(bits, i + 3);
  }

  lemma GeneratorFours(g: word)
    requires forall i :: 0 <= i < 32 ==> g[i] == InGenerator(31 - i)
    ensures Four(g, 28) == 0xE && Four(g, 24) == 0xD && Four(g, 20) == 0xB && Four(g, 16) == 0x8
    ensures Four(g, 12) == 0x8 && Four(g, 8) == 0x3 && Four(g, 4) == 0x2 && Four(g, 0) == 0x0
  {
  }

  lemma GeneratorHigh(g: word)
    requires Four(g, 28) == 0xE && Four(g, 24) == 0xD && Four(g, 20) == 0xB && Four(g, 16) == 0x8
    ensures FromBits(g[16..]) == 0xEDB8
  {
    FourBits(g, 28, 0xE, 0);
    FourBits(g, 24, 0xD, 0xE);
    FourBits(g, 20, 0xB, 0xED);
    FourBits(g, 16, 0x8, 0xEDB);
  }

  lemma GeneratorLow(g: word)
    requires Four(g, 12) == 0x8 && Four(g, 8) == 0x3 && Four(g, 4) == 0x2 && Four(g, 0) == 0x0
    requires FromBits(g[16..]) == 0xEDB8
    ensures FromBits(g[0..]) == POLYNOMIAL
  {
    FourBits(g, 12, 0x8, 0xEDB8);
    FourBits(g, 8, 0x3, 0xE_DB88);
    FourBits(g, 4, 0x2, 0xED_B883);
    FourBits(g, 0, 0x0, 0xEDB_8832);
  }

  lemma GeneratorIs(g: word)
    requires forall i :: 0 <= i < 32 ==> g[i] == InGenerator(31 - i)
    ensures FromBits(g) == POLYNOMIAL
  {
    GeneratorFours(g);
    GeneratorHigh(g);
    GeneratorLow(g);
    assert g[0..] == g;
  }

  lemma WordOf(g: word, n: nat)
    requires FromBits(g) == n
    ensures Bits(n, 32) == g
  {
    BitsFromBits(g);
  }

  lemma ValueOfGenerator()
    ensures FromBits(Generator()) == POLYNOMIAL
  {
    GeneratorIs(Generator());
  }

  /** The constant of the code is the generator polynomial of the standard. */
  lemma PolynomialIsGenerator()
    ensures Polynomial() == Generator()
  {
    ValueOfGenerator();
    WordOf(Generator(), POLYNOMIAL);
  }

  lemma {:induction false} OnesShiftOut(n: nat, message: seq<bool>)
    requires |message| == n <= 32 && forall i :: 0 <= i < n ==> message[i]
    ensures Serial(Pad(seq(n, _ => true)), message) == Zeros(32)
    decreases n
  {
    var register := Pad(seq(n, _ => true));
    if n == 0 {
      assert register == Zeros(32);
    } else {
      assert Shift(register) == Pad(seq(n - 1, _ => true));
      OnesShiftOut(n - 1, message[1..]);
    }
  }

  function Trues(n: nat): (r: seq<bool>)
    ensures |r| == n
  {
    seq(n, _ => true)
  }

  lemma {:induction false} AllOnes(width: nat, n: nat)
    requires n + 1 == PowerOfTwo(width)
    ensures Bits(n, width) == Trues(width)
  {
    if width > 0 {
      assert n % 2 == 1;
      AllOnes(width - 1, n / 2);
      assert Trues(width) == [true] + Trues(width - 1);
    }
  }

  lemma OnesByte(rest: seq<byte>)
    ensures Message([255] + rest) == Bits(255, 8) + Message(rest)
    ensures forall i :: 0 <= i < 8 ==> Bits(255, 8)[i]
  {
    assert ([255] + rest)[1..] == rest;
    PowerOfTwoOf8();
    AllOnes(8, 255);
  }

  lemma OnesMessage()
    ensures forall i :: 0 <= i < 32 ==> Message([255, 255, 255, 255])[i]
  {
    OnesByte([]);
    OnesByte([255]);
    OnesByte([255, 255]);
    OnesByte([255, 255, 255]);
    assert [255] + [255] == [255, 255] && [255] + [255, 255] == [255, 255, 255];
    assert [255] + [255, 255, 255] == [255, 255, 255, 255];
  }

  /** The register starts from ones and is complemented at the end: nothing sums to
      nothing, and four bytes of ones to ones. */
  lemma PresetAndComplement()
    ensures Crc32([]) == Zeros(32)
    ensures Crc32([255, 255, 255, 255]) == Ones()
  {
    OnesMessage();
    OnesShiftOut(32, Message([255, 255, 255, 255]));
    assert Pad(seq(32, _ => true)) == Ones();
  }
}
