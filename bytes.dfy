/** Machine integers of the generator: bytes, the 32-bit block counter with
    Go's `uint32` wrap-around, and the big-endian counter encoding that
    `binary.Write(w, binary.BigEndian, counter)` puts in front of every PRF input. */
module Bytes {

  newtype byte = x: int | 0 <= x < 0x100
  newtype uint32 = x: int | 0 <= x < 0x1_0000_0000

  const CounterMax: uint32 := 0xFFFF_FFFF

  /** `counter++` on a Go `uint32`: the largest value wraps to zero. */
  function Increment(c: uint32): (r: uint32)
    ensures r as int == (c as int + 1) % 0x1_0000_0000
    ensures c < CounterMax ==> r == c + 1
    ensures c == CounterMax ==> r == 0
  {
    if c == CounterMax then 0 else c + 1
  }

  /** The counter value after `i` increments starting from zero. */
  function CounterAt(i: nat): (r: uint32)
    ensures i < 0x1_0000_0000 ==> r as int == i
  {
    (i % 0x1_0000_0000) as uint32
  }

  /** One more increment is one more step of the wrapped count. */
  lemma CounterAtSucc(i: nat)
    ensures CounterAt(i + 1) == Increment(CounterAt(i))
  {
  }

  /** The four bytes of `c`, most significant first. */
  function BE32(c: uint32): (r: seq<byte>)
    ensures |r| == 4
  {
    [(c / 0x100_0000) as byte,
     (c / 0x1_0000 % 0x100) as byte,
     (c / 0x100 % 0x100) as byte,
     (c % 0x100) as byte]
  }

  /** The value a big-endian reader takes from four bytes. */
  function DecodeBE32(b: seq<byte>): (r: uint32)
    requires |b| == 4
  {
    (b[0] as int * 0x100_0000 + b[1] as int * 0x1_0000 + b[2] as int * 0x100 + b[3] as int) as uint32
  }

  /** Encoding loses nothing: every counter value is read back unchanged. */
  lemma DecodeEncode(c: uint32)
    ensures DecodeBE32(BE32(c)) == c
  {
    var x := c as int;
    var q1, q2, q3 := x / 0x100, x / 0x1_0000, x / 0x100_0000;
    assert x == q1 * 0x100 + x % 0x100;
    assert q1 == q2 * 0x100 + q1 % 0x100 && q1 % 0x100 == x / 0x100 % 0x100;
    assert q2 == q3 * 0x100 + q2 % 0x100 && q2 % 0x100 == x / 0x1_0000 % 0x100;
  }

  /** Every four-byte string is the encoding of exactly one counter value. */
  lemma EncodeDecode(b: seq<byte>)
    requires |b| == 4
    ensures BE32(DecodeBE32(b)) == b
  {
    var x := DecodeBE32(b) as int;
    var q1 := b[0] as int * 0x1_0000 + b[1] as int * 0x100 + b[2] as int;
    var q2 := b[0] as int * 0x100 + b[1] as int;
    assert x == q1 * 0x100 + b[3] as int;
    assert x / 0x100 == q1 && x % 0x100 == b[3] as int;
    assert q1 == q2 * 0x100 + b[2] as int;
    assert x / 0x1_0000 == q2 && x / 0x100_0000 == b[0] as int;
  }

  /** Distinct counter values give distinct PRF input prefixes. */
  lemma BE32Injective(c: uint32, d: uint32)
    requires BE32(c) == BE32(d)
    ensures c == d
  {
    DecodeEncode(c);
    DecodeEncode(d);
  }
}
