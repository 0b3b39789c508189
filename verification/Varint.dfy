/** Base 128 varints of 64-bit unsigned integers, as Go's encoding/binary package writes and reads them. */
module Varint {
  import opened Bytes

  const MAX_VARINT_LEN := 10
  const UINT64_LIMIT := 0x1_0000_0000_0000_0000

  /** Seven bits to a byte, least significant first; every byte but the last has its top bit set. */
  function Uvarint(x: nat): (s: bytes)
    ensures |s| >= 1
  {
    if x < 128 then [x as byte] else [(x % 128 + 128) as byte] + Uvarint(x / 128)
  }

  /** How a read can end: at the end of the input, in the middle of something, or on bytes that cannot be decoded. */
  datatype ReadError = EndOfFile | UnexpectedEnd | Overflow | MagicMismatch | Undecodable | BadOffset | NotOpen

  datatype VarintRead = Varint(x: nat, length: nat) | NoVarint(error: ReadError)

  /** Reading a varint whose first i bytes have been read already. */
  function ReadUvarint(s: bytes, i: nat): (r: VarintRead)
    ensures r.Varint? ==> 1 <= r.length <= |s| && i + r.length <= MAX_VARINT_LEN
    ensures r.NoVarint? ==> !r.error.Undecodable?
    decreases |s|
  {
    if i >= MAX_VARINT_LEN then NoVarint(Overflow)
    else if s == [] then if i > 0 then NoVarint(UnexpectedEnd) else NoVarint(EndOfFile)
    else if s[0] < 128 then if i == MAX_VARINT_LEN - 1 && s[0] > 1 then NoVarint(Overflow) else Varint(s[0] as nat, 1)
    else match ReadUvarint(s[1..], i + 1)
      case Varint(x, n) => Varint(s[0] as nat - 128 + 128 * x, n + 1)
      case failed => failed
  }

  /** What still fits when i bytes have been read: the tenth byte contributes one bit only. */
  function Limit(i: nat): (n: nat)
    requires i < MAX_VARINT_LEN
    ensures n >= 2
    decreases MAX_VARINT_LEN - i
  {
    if i == MAX_VARINT_LEN - 1 then 2 else 128 * Limit(i + 1)
  }

  lemma {:induction false} LimitIsUint64()
    ensures Limit(0) == UINT64_LIMIT
  {
    assert Limit(8) == 128 * Limit(9) == 256;
    assert Limit(6) == 128 * Limit(7) == 128 * 128 * Limit(8);
    assert Limit(4) == 128 * Limit(5) == 128 * 128 * Limit(6);
    assert Limit(2) == 128 * Limit(3) == 128 * 128 * Limit(4);
    assert Limit(0) == 128 * Limit(1) == 128 * 128 * Limit(2);
  }

  lemma {:induction false} ReadBack(x: nat, t: bytes, i: nat)
    requires i < MAX_VARINT_LEN && x < Limit(i)
    ensures ReadUvarint(Uvarint(x) + t, i) == Varint(x, |Uvarint(x)|)
    decreases x
  {
    var s := Uvarint(x) + t;
    if x >= 128 {
      assert s[1..] == Uvarint(x / 128) + t;
      ReadBack(x / 128, t, i + 1);
    }
  }

  /** Reading what was written gives the number back, whatever follows, and consumes exactly its bytes. */
  lemma {:induction false} VarintRoundTrip(x: nat, t: bytes)
    requires x < UINT64_LIMIT
    ensures ReadUvarint(Uvarint(x) + t, 0) == Varint(x, |Uvarint(x)|)
    ensures |Uvarint(x)| <= MAX_VARINT_LEN
  {
    LimitIsUint64();
    ReadBack(x, t, 0);
  }

  /** A varint that is cut off is never taken for a shorter one. */
  lemma {:induction false} CutVarint(x: nat, n: nat, i: nat)
    requires i < MAX_VARINT_LEN && x < Limit(i) && n < |Uvarint(x)|
    ensures ReadUvarint(Uvarint(x)[..n], i) == NoVarint(if i + n > 0 then UnexpectedEnd else EndOfFile)
    decreases n
  {
    if n > 0 {
      assert x >= 128;
      assert Uvarint(x)[..n][1..] == Uvarint(x / 128)[..n - 1];
      CutVarint(x / 128, n - 1, i + 1);
    }
  }

  lemma {:induction false} ReadBelow(s: bytes, i: nat)
    requires i < MAX_VARINT_LEN && ReadUvarint(s, i).Varint?
    ensures ReadUvarint(s, i).x < Limit(i)
    decreases |s|
  {
    if s[0] >= 128 {
      ReadBelow(s[1..], i + 1);
    }
  }

  /** The overflow check is exact enough: what is read without an error fits 64 bits. */
  lemma {:induction false} ReadFitsUint64(s: bytes)
    requires ReadUvarint(s, 0).Varint?
    ensures ReadUvarint(s, 0).x < UINT64_LIMIT
  {
    LimitIsUint64();
    ReadBelow(s, 0);
  }

  /** A varint is read from its own bytes alone: cutting the input off anywhere behind it changes nothing. */
  lemma {:induction false} ReadFromPrefix(s: bytes, n: nat, i: nat)
    requires ReadUvarint(s, i).Varint? && ReadUvarint(s, i).length <= n <= |s|
    ensures ReadUvarint(s[..n], i) == ReadUvarint(s, i)
    decreases |s|
  {
    if s[0] >= 128 {
      ReadFromPrefix(s[1..], n - 1, i + 1);
      assert s[..n][1..] == s[1..][..n - 1];
    }
  }

  /** And what can be read from the front part of an input is read from the whole input. */
  lemma {:induction false} ReadFromWhole(s: bytes, n: nat, i: nat)
    requires n <= |s| && ReadUvarint(s[..n], i).Varint?
    ensures ReadUvarint(s, i) == ReadUvarint(s[..n], i)
    decreases |s|
  {
    if s[0] >= 128 {
      assert s[..n][1..] == s[1..][..n - 1];
      ReadFromWhole(s[1..], n - 1, i + 1);
    }
  }

  /** Writes a varint into a buffer, behind what is there already. */
  method PutUvarint(buf: array<byte>, off: nat, value: nat) returns (n: nat)
    requires off + |Uvarint(value)| <= buf.Length
    modifies buf
    ensures n == |Uvarint(value)| && buf[..off + n] == old(buf[..off]) + Uvarint(value)
  {
    var x, i := value, off;
    ghost var target := buf[..off] + Uvarint(value);
    while x >= 128
      invariant off <= i && i + |Uvarint(x)| == |target| <= buf.Length && buf[..i] + Uvarint(x) == target
      decreases x
    {
      ghost var before := buf[..i];
      buf[i] := (x % 128 + 128) as byte;
      assert buf[..i + 1] == before + [buf[i]];
      assert before + Uvarint(x) == before + [buf[i]] + Uvarint(x / 128);
      x, i := x / 128, i + 1;
    }
    ghost var before := buf[..i];
    buf[i] := x as byte;
    assert buf[..i + 1] == before + [buf[i]];
    n := i + 1 - off;
  }
}
