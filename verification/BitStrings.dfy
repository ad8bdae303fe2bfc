/** Numbers and their bits, least significant first. */
module BitStrings {
  import opened Basics

  /** The low `width` bits of a number. */
  function Bits(n: nat, width: nat): (r: seq<bool>)
    ensures |r| == width
  {
    if width == 0 then [] else [n % 2 == 1] + Bits(n / 2, width - 1)
  }

  function FromBits(bits: seq<bool>): nat {
    if bits == [] then 0 else (if bits[0] then 1 else 0) + 2 * FromBits(bits[1..])
  }

  lemma {:induction false} BitsFromBits(bits: seq<bool>)
    ensures FromBits(bits) < PowerOfTwo(|bits|)
    ensures Bits(FromBits(bits), |bits|) == bits
  {
    if bits != [] {
      BitsFromBits(bits[1..]);
      assert FromBits(bits) / 2 == FromBits(bits[1..]);
      assert bits == [bits[0]] + bits[1..];
    }
  }

  lemma {:induction false} FromBitsBits(n: nat, width: nat)
    requires n < PowerOfTwo(width)
    ensures FromBits(Bits(n, width)) == n
  {
    if width > 0 {
      FromBitsBits(n / 2, width - 1);
      assert Bits(n, width)[1..] == Bits(n / 2, width - 1);
    }
  }

  lemma PowerOfTwoOf8()
    ensures PowerOfTwo(8) == 256
  {
    assert PowerOfTwo(4) == 16;
  }

  /** The number in eight bits: `(word & 0xFF) as u8`. */
  function ByteOf(bits: seq<bool>): byte
    requires |bits| == 8
  {
    PowerOfTwoOf8();
    BitsFromBits(bits);
    FromBits(bits)
  }

  lemma ByteOfBits(b: byte)
    ensures ByteOf(Bits(b, 8)) == b
  {
    PowerOfTwoOf8();
    FromBitsBits(b, 8);
  }

  lemma BitsOfByte(bits: seq<bool>)
    requires |bits| == 8
    ensures Bits(ByteOf(bits), 8) == bits
  {
    BitsFromBits(bits);
  }
}
