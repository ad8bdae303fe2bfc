/** The postcard wire format (postcard specification, "Wire Format"), as far as
    the journal's records and the on-air frame use it: varint integers, raw
    bytes, length-prefixed byte strings and text, and optional values. */
module Postcard {
  import opened Basics

  /** What reading one value off the front of a byte string gives. */
  datatype Read<+T> = Failed | Got(value: T, rest: seq<byte>) {
    predicate IsFailure() {
      Failed?
    }

    function PropagateFailure<U>(): Read<U>
      requires Failed?
    {
      Failed
    }

    function Extract(): (T, seq<byte>)
      requires Got?
    {
      (value, rest)
    }
  }

  // ---- varints ----

  function Varint(n: nat): (r: seq<byte>)
    ensures |r| >= 1
  {
    if n < 128 then [n] else [128 + n % 128] + Varint(n / 128)
  }

  /** How many values fit in `limit` varint bytes whose last is at most `last`. */
  function VarintRange(limit: nat, last: nat): nat {
    if limit == 0 then 0
    else if limit == 1 then last + 1
    else 128 * VarintRange(limit - 1, last)
  }

  /** At most `limit` bytes; a longer run, or a last byte carrying bits the
      integer cannot hold, is a bad varint. */
  function ReadVarint(bytes: seq<byte>, limit: nat, last: nat): (r: Read<nat>)
    requires last < 128
    ensures r.Got? ==> r.value < VarintRange(limit, last)
    ensures r.Got? ==> |r.rest| < |bytes| && r.rest == bytes[|bytes| - |r.rest|..]
    decreases limit
  {
    if limit == 0 || bytes == [] then Failed
    else if bytes[0] < 128 then
      if limit == 1 && bytes[0] > last then Failed
      else
        RangeHoldsByte(limit, last);
        Got(bytes[0], bytes[1..])
    else
      var (high, rest) :- ReadVarint(bytes[1..], limit - 1, last);
      Got(bytes[0] % 128 + 128 * high, rest)
  }

  lemma {:induction false} RangeHoldsByte(limit: nat, last: nat)
    requires limit >= 1
    ensures limit == 1 ==> VarintRange(limit, last) == last + 1
    ensures limit > 1 ==> VarintRange(limit, last) >= 128
  {
    if limit > 2 {
      RangeHoldsByte(limit - 1, last);
    }
  }

  /** A value that needs another byte leaves the rest in the range of one byte
      less. */
  lemma Shorter(n: nat, limit: nat, last: nat)
    requires last < 128 && 128 <= n < VarintRange(limit, last)
    ensures limit > 1 && n / 128 < VarintRange(limit - 1, last)
  {
  }

  lemma LowAndHigh(n: nat) returns (low: nat, high: nat)
    requires n >= 128
    ensures low < 128 && low + 128 * high == n && high == n / 128
    ensures Varint(n) == [128 + low] + Varint(high)
  {
    low, high := n % 128, n / 128;
  }

  lemma ReadsOneMore(low: nat, tail: seq<byte>, high: nat, rest: seq<byte>, limit: nat, last: nat)
    requires last < 128 && low < 128 && limit > 0
    requires ReadVarint(tail, limit - 1, last) == Got(high, rest)
    ensures ReadVarint([128 + low] + tail, limit, last) == Got(low + 128 * high, rest)
  {
    var bytes := [128 + low] + tail;
    assert bytes[1..] == tail;
    assert (128 + low) % 128 == low;
  }

  lemma {:induction false} VarintRoundTrip(n: nat, rest: seq<byte>, limit: nat, last: nat)
    requires last < 128 && n < VarintRange(limit, last)
    ensures ReadVarint(Varint(n) + rest, limit, last) == Got(n, rest)
    decreases limit
  {
    if n >= 128 {
      Shorter(n, limit, last);
      var low, high := LowAndHigh(n);
      VarintRoundTrip(high, rest, limit - 1, last);
      ReadsOneMore(low, Varint(high) + rest, high, rest, limit, last);
      Associative([128 + low], Varint(high), rest);
    }
  }

  /** A value in range is never longer than its limit. */
  lemma {:induction false} VarintLength(n: nat, limit: nat, last: nat)
    requires last < 128 && n < VarintRange(limit, last)
    ensures |Varint(n)| <= limit
    decreases limit
  {
    if n >= 128 {
      VarintLength(n / 128, limit - 1, last);
    }
  }

  lemma Ranges()
    ensures VarintRange(3, 3) == 0x1_0000
    ensures VarintRange(5, 15) == 0x1_0000_0000
    ensures VarintRange(10, 1) == U64_MAX + 1
  {
    assert VarintRange(2, 3) == 512;
    assert VarintRange(3, 15) == 0x4_0000;
    assert VarintRange(4, 1) == 0x40_0000;
    assert VarintRange(6, 1) == 0x10_0000_0000;
    assert VarintRange(8, 1) == 0x4_0000_0000_0000;
  }

  function ReadU16(bytes: seq<byte>): (r: Read<u16>)
  {
    Ranges();
    match ReadVarint(bytes, 3, 3)
    case Failed => Failed
    case Got(n, rest) => Got(n, rest)
  }

  function ReadU32(bytes: seq<byte>): (r: Read<u32>)
  {
    Ranges();
    match ReadVarint(bytes, 5, 15)
    case Failed => Failed
    case Got(n, rest) => Got(n, rest)
  }

  function ReadU64(bytes: seq<byte>): (r: Read<u64>)
  {
    Ranges();
    match ReadVarint(bytes, 10, 1)
    case Failed => Failed
    case Got(n, rest) => Got(n, rest)
  }

  lemma U16RoundTrip(n: u16, rest: seq<byte>)
    ensures ReadU16(Varint(n) + rest) == Got(n, rest)
  {
    Ranges();
    VarintRoundTrip(n, rest, 3, 3);
  }

  lemma U32RoundTrip(n: u32, rest: seq<byte>)
    ensures ReadU32(Varint(n) + rest) == Got(n, rest)
  {
    Ranges();
    VarintRoundTrip(n, rest, 5, 15);
  }

  lemma U64RoundTrip(n: u64, rest: seq<byte>)
    ensures ReadU64(Varint(n) + rest) == Got(n, rest)
  {
    Ranges();
    VarintRoundTrip(n, rest, 10, 1);
  }

  // ---- bytes ----

  function ReadByte(bytes: seq<byte>): Read<byte> {
    if bytes == [] then Failed else Got(bytes[0], bytes[1..])
  }

  /** Exactly `n` raw bytes: how a fixed-size array travels. */
  function ReadRaw(bytes: seq<byte>, n: nat): (r: Read<seq<byte>>)
    ensures r.Got? ==> |r.value| == n
  {
    if n <= |bytes| then Got(bytes[..n], bytes[n..]) else Failed
  }

  lemma RawRoundTrip(b: seq<byte>, rest: seq<byte>)
    ensures ReadRaw(b + rest, |b|) == Got(b, rest)
  {
    assert (b + rest)[..|b|] == b && (b + rest)[|b|..] == rest;
  }

  function Bytes(b: seq<byte>): seq<byte> {
    Varint(|b|) + b
  }

  function ReadBytes(bytes: seq<byte>): Read<seq<byte>> {
    var (length, rest) :- ReadU64(bytes);
    ReadRaw(rest, length)
  }

  lemma BytesRoundTrip(b: seq<byte>, rest: seq<byte>)
    requires |b| <= U64_MAX
    ensures ReadBytes(Bytes(b) + rest) == Got(b, rest)
  {
    assert Bytes(b) + rest == Varint(|b|) + (b + rest);
    U64RoundTrip(|b|, b + rest);
    RawRoundTrip(b, rest);
  }

  // ---- text ----

  predicate Continuation(b: byte) {
    0x80 <= b <= 0xBF
  }

  /** How many bytes the well-formed character at the front takes; 0 if there
      is none (The Unicode Standard, table 3-7). */
  function CharWidth(s: seq<byte>): (w: nat)
    requires s != []
    ensures w <= |s|
  {
    var a := s[0];
    if a <= 0x7F then 1
    else if 0xC2 <= a <= 0xDF && |s| >= 2 && Continuation(s[1]) then 2
    else if 0xE0 <= a <= 0xEF && |s| >= 3 && Continuation(s[1]) && Continuation(s[2])
      && (a == 0xE0 ==> s[1] >= 0xA0) && (a == 0xED ==> s[1] <= 0x9F) then 3
    else if 0xF0 <= a <= 0xF4 && |s| >= 4
      && Continuation(s[1]) && Continuation(s[2]) && Continuation(s[3])
      && (a == 0xF0 ==> s[1] >= 0x90) && (a == 0xF4 ==> s[1] <= 0x8F) then 4
    else 0
  }

  predicate Utf8(s: seq<byte>)
    decreases |s|
  {
    s == [] || (CharWidth(s) > 0 && Utf8(s[CharWidth(s)..]))
  }

  /** What a string holds. */
  type text = s: seq<byte> | Utf8(s) witness []

  lemma CharWidthConcat(a: seq<byte>, b: seq<byte>)
    requires a != [] && CharWidth(a) > 0
    ensures CharWidth(a + b) == CharWidth(a)
  {
    assert forall i :: 0 <= i < |a| ==> (a + b)[i] == a[i];
  }

  lemma {:induction false} Utf8Concat(a: seq<byte>, b: seq<byte>)
    requires Utf8(a) && Utf8(b)
    ensures Utf8(a + b)
    decreases |a|
  {
    if a == [] {
      assert a + b == b;
    } else {
      var w := CharWidth(a);
      CharWidthConcat(a, b);
      Utf8Concat(a[w..], b);
      assert (a + b)[w..] == a[w..] + b;
    }
  }

  lemma {:induction false} AsciiIsUtf8(s: seq<byte>)
    requires forall i :: 0 <= i < |s| ==> s[i] <= 0x7F
    ensures Utf8(s)
    decreases |s|
  {
    if s != [] {
      assert CharWidth(s) == 1;
      AsciiIsUtf8(s[1..]);
    }
  }

  function ReadText(bytes: seq<byte>): Read<text> {
    var (s, rest) :- ReadBytes(bytes);
    if Utf8(s) then Got(s, rest) else Failed
  }

  lemma TextRoundTrip(s: text, rest: seq<byte>)
    requires |s| <= U64_MAX
    ensures ReadText(Bytes(s) + rest) == Got(s, rest)
  {
    BytesRoundTrip(s, rest);
  }

  // ---- optional values ----

  function OptionalU64(v: Option<u64>): seq<byte> {
    match v
    case None => [0]
    case Some(n) => [1] + Varint(n)
  }

  function ReadOptionalU64(bytes: seq<byte>): Read<Option<u64>> {
    var (tag, rest) :- ReadByte(bytes);
    if tag == 0 then Got(None, rest)
    else if tag == 1 then
      var (n, after) :- ReadU64(rest);
      Got(Some(n), after)
    else Failed
  }

  lemma OptionalU64RoundTrip(v: Option<u64>, rest: seq<byte>)
    ensures ReadOptionalU64(OptionalU64(v) + rest) == Got(v, rest)
  {
    match v
    case None =>
      assert ([0] + rest)[1..] == rest;
    case Some(n) =>
      assert ([1] + Varint(n) + rest)[1..] == Varint(n) + rest;
      U64RoundTrip(n, rest);
  }
}
