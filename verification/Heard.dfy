/** Which members a sender has heard, as one bit each. */
module Heard {
  import opened Basics
  import opened BitStrings
  import opened CompactFrame

  const CAPACITY: nat := 64

  predicate Contains(h: eight, index: nat) {
    index < CAPACITY && Bits(h[index / 8], 8)[index % 8]
  }

  function Members(h: eight): set<nat> {
    set j: nat | j < CAPACITY && Contains(h, j)
  }

  /** `byte | 1 << bit`. */
  function WithBit(b: byte, bit: nat): byte
    requires bit < 8
  {
    ByteOf(Bits(b, 8)[bit := true])
  }

  function HeardFrom(h: eight, index: nat): eight {
    if index < CAPACITY then h[index / 8 := WithBit(h[index / 8], index % 8)] else h
  }

  /** Recording a member records that member and nobody else; one past the
      capacity records nothing. */
  lemma HeardFromExactly(h: eight, index: nat, other: nat)
    ensures Contains(HeardFrom(h, index), other)
       <==> Contains(h, other) || (other == index && index < CAPACITY)
  {
    if index < CAPACITY {
      BitsOfByte(Bits(h[index / 8], 8)[index % 8 := true]);
      assert other == index <==> other / 8 == index / 8 && other % 8 == index % 8;
    }
  }

  /** `u8::count_ones`. */
  function Ones(bits: seq<bool>): nat {
    if bits == [] then 0 else Ones(bits[..|bits| - 1]) + if bits[|bits| - 1] then 1 else 0
  }

  function Below(h: eight, limit: nat): set<nat> {
    set j: nat | j < limit && j < CAPACITY && Contains(h, j)
  }

  lemma {:induction false} OneByte(h: eight, at: nat, n: nat)
    requires at < 8 && n <= 8
    ensures |Below(h, 8 * at + n)| == |Below(h, 8 * at)| + Ones(Bits(h[at], 8)[..n])
  {
    if n > 0 {
      var bits, j := Bits(h[at], 8), 8 * at + n - 1;
      OneByte(h, at, n - 1);
      assert bits[..n][..n - 1] == bits[..n - 1];
      assert j / 8 == at && j % 8 == n - 1;
      assert Below(h, 8 * at + n) == Below(h, j) + if Contains(h, j) then {j} else {};
    }
  }

  class HeardMap {
    var bytes: eight

    constructor None()
      ensures Members(bytes) == {}
    {
      bytes := seq(8, _ => 0);
      new;
      NobodyHeard();
    }

    method Record(index: nat)
      modifies this
      ensures bytes == HeardFrom(old(bytes), index)
      ensures Members(bytes) == old(Members(bytes)) + if index < CAPACITY then {index} else {}
    {
      forall other: nat | other < CAPACITY
        ensures Contains(HeardFrom(bytes, index), other) <==> Contains(bytes, other) || other == index
      {
        HeardFromExactly(bytes, index, other);
      }
      if index < CAPACITY {
        bytes := bytes[index / 8 := WithBit(bytes[index / 8], index % 8)];
      }
    }

    method Count() returns (total: nat)
      ensures total == |Members(bytes)|
    {
      total := 0;
      var at := 0;
      while at < 8
        invariant at <= 8 && total == |Below(bytes, 8 * at)|
      {
        OneByte(bytes, at, 8);
        assert Bits(bytes[at], 8)[..8] == Bits(bytes[at], 8);
        total := total + Ones(Bits(bytes[at], 8));
        at := at + 1;
      }
      assert Below(bytes, 64) == Members(bytes);
    }
  }

  lemma NobodyHeard()
    ensures Members(seq(8, _ => 0)) == {}
  {
    var none: eight := seq(8, _ => 0);
    assert Bits(0, 8) == [false] + Bits(0, 7);
    forall j: nat | j < CAPACITY
      ensures !Contains(none, j)
    {
      NoBits(8, j % 8);
    }
  }

  lemma {:induction false} NoBits(width: nat, i: nat)
    requires i < width
    ensures !Bits(0, width)[i]
  {
    if i > 0 {
      NoBits(width - 1, i - 1);
    }
  }
}
