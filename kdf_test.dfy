/** The scenarios of kdf_test.go, stated for every PRF rather than for
    HMAC-SHA256 on one key: what each test checks follows from the contracts
    of `New` and `Read`. */
module KdfTest {
  import opened Bytes
  import opened CounterMode
  import opened Kdf

  /** `make([]byte, n)` followed by `Read`, for a read the buffer covers. */
  method ReadBuffered(k: Kdf, n: nat) returns (out: seq<byte>)
    requires k.Valid() && n <= |k.buf|
    modifies k
    ensures k.Valid()
    ensures out == old(k.buf)[..n]
    ensures k.buf == old(k.buf)[n..] && k.counter == old(k.counter)
  {
    var bs := new byte[n];
    var _ := k.Read(bs);
    out := bs[..];
  }

  /** `TestBuffering`: a generator seeded with the bytes 1 to 6 hands them out
      as reads of 1, 2 and 3 bytes, computes no block, and ends with an empty buffer. */
  method Buffering(prf: Prf)
    returns (one: seq<byte>, two: seq<byte>, three: seq<byte>, leftover: seq<byte>, counter: uint32)
    requires prf.Valid()
    ensures one == [1] && two == [2, 3] && three == [4, 5, 6]
    ensures leftover == [] && counter == 0
  {
    var k := new Kdf(prf, [], [1, 2, 3, 4, 5, 6]);
    one := ReadBuffered(k, 1);
    two := ReadBuffered(k, 2);
    three := ReadBuffered(k, 3);
    leftover, counter := k.buf, k.counter;
  }

  /** The bytes of "label" and "context". */
  const Label: seq<byte> := [108, 97, 98, 101, 108]
  const Context: seq<byte> := [99, 111, 110, 116, 101, 120, 116]

  /** `make([]byte, n)` followed by `Read` on a generator built by `New`. */
  method ReadNew(k: Kdf, n: nat) returns (out: seq<byte>)
    requires k.Valid() && k.seed == []
    modifies k
    ensures k.Valid()
    ensures |k.delivered| == |old(k.delivered)| + n
    ensures out == Stream(k.prf, k.fixedInput, |k.delivered|)[|old(k.delivered)|..]
  {
    var bs := new byte[n];
    var _ := k.Read(bs);
    out := bs[..];
  }

  /** A series of reads of the given lengths from a generator built by `New`:
      the outputs are the successive slices of the stream. */
  method Reads(k: Kdf, lengths: seq<nat>) returns (outs: seq<seq<byte>>)
    requires k.Valid() && k.seed == []
    modifies k
    ensures k.Valid()
    ensures outs == Chunks(k.prf, k.fixedInput, |old(k.delivered)|, lengths)
    ensures |k.delivered| == |old(k.delivered)| + TotalLength(lengths)
    decreases |lengths|
  {
    if lengths == [] {
      outs := [];
    } else {
      var first := ReadNew(k, lengths[0]);
      var rest := Reads(k, lengths[1..]);
      outs := [first] + rest;
    }
  }

  /** Any series of reads from `New`, concatenated, is the stream prefix of
      their total length. */
  method ReadsAreStreamPrefix(mac: (seq<byte>, seq<byte>) -> seq<byte>, size: nat, secret: seq<byte>,
                              lbl: seq<byte>, context: seq<byte>, lengths: seq<nat>)
    returns (outs: seq<seq<byte>>)
    requires Prf(mac, secret, size).Valid()
    ensures |outs| == |lengths|
    ensures Flatten(outs) == Stream(Prf(mac, secret, size), FixedInput(lbl, context), TotalLength(lengths))
  {
    var k := New(mac, size, secret, lbl, context);
    outs := Reads(k, lengths);
    ChunkingInvariance(k.prf, k.fixedInput, 0, lengths);
  }

  /** Two reads of half a block each give block 1, computed with counter
      `00 00 00 01`; the next read of a whole block gives block 2, counter `00 00 00 02`. */
  method HalvesThenBlock(mac: (seq<byte>, seq<byte>) -> seq<byte>, secret: seq<byte>, half: nat,
                         lbl: seq<byte>, context: seq<byte>)
    returns (got: seq<byte>, next: seq<byte>)
    requires Prf(mac, secret, half + half).Valid()
    ensures got == mac(secret, [0, 0, 0, 1] + FixedInput(lbl, context))
    ensures next == mac(secret, [0, 0, 0, 2] + FixedInput(lbl, context))
  {
    ghost var prf, fixed := Prf(mac, secret, half + half), FixedInput(lbl, context);
    var k := New(mac, half + half, secret, lbl, context);
    var chunk1 := ReadNew(k, half);
    var chunk2 := ReadNew(k, half);
    got := chunk1 + chunk2;
    StreamPrefix(prf, fixed, half, half + half);
    next := ReadNew(k, half + half);
    StreamPrefix(prf, fixed, half + half, 2 * (half + half));
    FirstTwoBlocks(prf, fixed);
  }

  /** `TestKdf`: with a 32-byte PRF keyed with 32 zero bytes, two reads of 16
      bytes give the PRF of `00 00 00 01 || "label" || 00 || "context"`, and
      the next read of 32 bytes gives the PRF of the same input with counter 2. */
  method ChunkedRead(mac: (seq<byte>, seq<byte>) -> seq<byte>) returns (got: seq<byte>, next: seq<byte>)
    requires Prf(mac, seq(32, _ => 0), 32).Valid()
    ensures got == mac(seq(32, _ => 0), [0, 0, 0, 1] + Label + [0] + Context)
    ensures next == mac(seq(32, _ => 0), [0, 0, 0, 2] + Label + [0] + Context)
  {
    got, next := HalvesThenBlock(mac, seq(32, _ => 0), 16, Label, Context);
    assert [0, 0, 0, 1] + FixedInput(Label, Context) == [0, 0, 0, 1] + Label + [0] + Context;
    assert [0, 0, 0, 2] + FixedInput(Label, Context) == [0, 0, 0, 2] + Label + [0] + Context;
  }

  /** Chunking invariance on two generators: reading a and then b bytes from
      one gives what a single read of a + b bytes gives from the other. */
  method ChunkingMatchesBulk(mac: (seq<byte>, seq<byte>) -> seq<byte>, size: nat, secret: seq<byte>,
                             lbl: seq<byte>, context: seq<byte>, a: nat, b: nat)
    returns (chunked: seq<byte>, bulk: seq<byte>)
    requires Prf(mac, secret, size).Valid()
    ensures |chunked| == a + b
    ensures chunked == bulk
    ensures bulk == Stream(Prf(mac, secret, size), FixedInput(lbl, context), a + b)
  {
    ghost var prf, fixed := Prf(mac, secret, size), FixedInput(lbl, context);
    var k1 := New(mac, size, secret, lbl, context);
    var first := ReadNew(k1, a);
    var second := ReadNew(k1, b);
    chunked := first + second;
    StreamPrefix(prf, fixed, a, a + b);

    var k2 := New(mac, size, secret, lbl, context);
    bulk := ReadNew(k2, a + b);
  }

  /** A first read of one byte more than a block computes blocks 1 and 2,
      leaves the counter at 2 and keeps all of block 2 but its first byte. */
  method BlockBoundary(mac: (seq<byte>, seq<byte>) -> seq<byte>, size: nat, secret: seq<byte>,
                       lbl: seq<byte>, context: seq<byte>)
    returns (out: array<byte>, leftover: seq<byte>, counter: uint32)
    requires Prf(mac, secret, size).Valid()
    ensures counter == 2
    ensures out[..] == Stream(Prf(mac, secret, size), FixedInput(lbl, context), size + 1)
    ensures leftover == Block(Prf(mac, secret, size), FixedInput(lbl, context), 2)[1..]
  {
    var k := New(mac, size, secret, lbl, context);
    out := new byte[size + 1];
    var _ := k.Read(out);
    assert BlocksNeeded(size, size + 1, size) == 1;
    BlocksLength(k.prf, k.fixedInput, 2);
    LeftoverIsBlockTail(k);
    leftover, counter := k.buf, k.counter;
  }
}
