/** The logical output of the counter-mode KDF of NIST SP 800-108 (section 5.1
    of the 2009 edition): the concatenation, for i = 1, 2, 3, ..., of the blocks
    PRF(BE32(i) || fixedInput). Everything here is a value; the generator that
    hands this stream out piece by piece is in module Kdf. */
module CounterMode {
  import opened Bytes

  /** A keyed PRF: the HMAC that `hmac.New(h, key)` builds over the hash `h`,
      seen as a deterministic function `mac(key, message)` whose outputs all
      have `size` bytes (the hash's output size). */
  datatype Prf = Prf(mac: (seq<byte>, seq<byte>) -> seq<byte>, key: seq<byte>, size: nat)
  {
    ghost predicate Valid() {
      size > 0 && forall m {:trigger mac(key, m)} :: |mac(key, m)| == size
    }

    /** Reset, write `m`, then `Sum`: one PRF evaluation on the whole message. */
    function Sum(m: seq<byte>): (r: seq<byte>)
      requires Valid()
      ensures |r| == size
    {
      mac(key, m)
    }
  }

  /** The fixed input `lbl || 0x00 || context`. */
  function FixedInput(lbl: seq<byte>, context: seq<byte>): (r: seq<byte>)
    ensures |r| == |lbl| + 1 + |context|
    ensures r[..|lbl|] == lbl && r[|lbl|] == 0 && r[|lbl| + 1..] == context
  {
    lbl + [0] + context
  }

  /** With labels free of 0x00 bytes, the separator is the first zero byte, so
      the fixed input determines both lbl and context. */
  lemma FixedInputInjective(lbl1: seq<byte>, context1: seq<byte>, lbl2: seq<byte>, context2: seq<byte>)
    requires forall i :: 0 <= i < |lbl1| ==> lbl1[i] != 0
    requires forall i :: 0 <= i < |lbl2| ==> lbl2[i] != 0
    requires FixedInput(lbl1, context1) == FixedInput(lbl2, context2)
    ensures lbl1 == lbl2 && context1 == context2
  {
    var f := FixedInput(lbl1, context1);
    assert f[|lbl1|] == 0 && f[|lbl2|] == 0;
    assert |lbl1| == |lbl2|;
  }

  /** The PRF input for the i-th block: the wrapped counter value, then the fixed input. */
  function BlockInput(fixed: seq<byte>, i: nat): (r: seq<byte>)
    ensures |r| == 4 + |fixed|
    ensures DecodeBE32(r[..4]) == CounterAt(i) && r[4..] == fixed
  {
    DecodeEncode(CounterAt(i));
    BE32(CounterAt(i)) + fixed
  }

  /** B(i), the i-th block of the stream; blocks are numbered from 1. */
  function Block(prf: Prf, fixed: seq<byte>, i: nat): (r: seq<byte>)
    requires prf.Valid() && i >= 1
    ensures |r| == prf.size
  {
    prf.Sum(BlockInput(fixed, i))
  }

  /** The counter is 32 bits wide, so block i + 2^32 is computed from the same
      input as block i: past 2^32 - 1 blocks the stream repeats itself. */
  lemma BlockPeriod(prf: Prf, fixed: seq<byte>, i: nat)
    requires prf.Valid() && i >= 1
    ensures Block(prf, fixed, i + 0x1_0000_0000) == Block(prf, fixed, i)
  {
    assert CounterAt(i + 0x1_0000_0000) == CounterAt(i);
  }

  /** B(1) || ... || B(k). */
  ghost function Blocks(prf: Prf, fixed: seq<byte>, k: nat): seq<byte>
    requires prf.Valid()
  {
    if k == 0 then [] else Blocks(prf, fixed, k - 1) + Block(prf, fixed, k)
  }

  /** k blocks are k times the PRF's output size. */
  lemma {:induction false} BlocksLength(prf: Prf, fixed: seq<byte>, k: nat)
    requires prf.Valid()
    ensures |Blocks(prf, fixed, k)| == k * prf.size
  {
    if k > 0 {
      BlocksLength(prf, fixed, k - 1);
      assert k * prf.size == (k - 1) * prf.size + prf.size;
    }
  }

  /** Byte p of the stream that begins with block i: skip whole blocks until
      p falls inside one. */
  ghost function ByteAt(prf: Prf, fixed: seq<byte>, i: nat, p: nat): byte
    requires prf.Valid() && i >= 1
    decreases p
  {
    if p < prf.size then Block(prf, fixed, i)[p] else ByteAt(prf, fixed, i + 1, p - prf.size)
  }

  /** The first n bytes of the stream B(1) || B(2) || ..., defined byte by byte. */
  ghost function Stream(prf: Prf, fixed: seq<byte>, n: nat): (r: seq<byte>)
    requires prf.Valid()
    ensures |r| == n
  {
    seq(n, p requires 0 <= p => ByteAt(prf, fixed, 1, p))
  }

  /** Skipping the first m blocks of the stream leaves the stream that begins with block m + 1. */
  lemma {:induction false} ByteAtSkip(prf: Prf, fixed: seq<byte>, m: nat, r: nat)
    requires prf.Valid()
    ensures ByteAt(prf, fixed, 1, |Blocks(prf, fixed, m)| + r) == ByteAt(prf, fixed, m + 1, r)
  {
    if m > 0 {
      var before := |Blocks(prf, fixed, m - 1)|;
      assert |Blocks(prf, fixed, m)| == before + prf.size;
      ByteAtSkip(prf, fixed, m - 1, prf.size + r);
    }
  }

  /** Byte j of B(1) || ... || B(k) is byte j of the stream. */
  lemma {:induction false} BlocksAt(prf: Prf, fixed: seq<byte>, k: nat, j: nat)
    requires prf.Valid() && j < |Blocks(prf, fixed, k)|
    ensures Blocks(prf, fixed, k)[j] == ByteAt(prf, fixed, 1, j)
  {
    var prev := Blocks(prf, fixed, k - 1);
    assert Blocks(prf, fixed, k) == prev + Block(prf, fixed, k);
    if j < |prev| {
      BlocksAt(prf, fixed, k - 1, j);
    } else {
      ByteAtSkip(prf, fixed, k - 1, j - |prev|);
    }
  }

  /** The two definitions of the stream agree on every whole number of blocks. */
  lemma {:induction false} StreamIsBlocks(prf: Prf, fixed: seq<byte>, k: nat)
    requires prf.Valid()
    ensures Stream(prf, fixed, k * prf.size) == Blocks(prf, fixed, k)
  {
    BlocksLength(prf, fixed, k);
    forall j | 0 <= j < k * prf.size
      ensures Stream(prf, fixed, k * prf.size)[j] == Blocks(prf, fixed, k)[j]
    {
      BlocksAt(prf, fixed, k, j);
    }
  }

  /** At least one times s is at least s. */
  lemma {:induction false} MulAtLeast(c: nat, s: nat)
    requires c >= 1
    ensures c * s >= s
  {
    if c > 1 {
      MulAtLeast(c - 1, s);
      assert c * s == (c - 1) * s + s;
    }
  }

  /** A smaller factor falls short by at least one s. */
  lemma MulStrict(a: int, b: int, s: nat)
    ensures a < b ==> a * s + s <= b * s
  {
    if a < b {
      MulAtLeast(b - a, s);
      assert b * s == a * s + (b - a) * s;
    }
  }

  /** The remainder of q * s + r by s is r, for r below s. */
  lemma ModAfterMultiple(q: nat, r: nat, s: nat)
    requires r < s
    ensures (q * s + r) % s == r
  {
    var x := q * s + r;
    var d := x / s;
    assert x == d * s + x % s && 0 <= x % s < s;
    MulStrict(d, q, s);
    MulStrict(q, d, s);
  }

  /** A shorter read of the stream is a prefix of a longer one. */
  lemma StreamPrefix(prf: Prf, fixed: seq<byte>, n: nat, m: nat)
    requires prf.Valid() && n <= m
    ensures Stream(prf, fixed, n) == Stream(prf, fixed, m)[..n]
  {
  }

  /** The first block is computed with counter 1 (`00 00 00 01`), the second with 2. */
  lemma FirstTwoBlocks(prf: Prf, fixed: seq<byte>)
    requires prf.Valid()
    ensures Stream(prf, fixed, prf.size) == prf.Sum([0, 0, 0, 1] + fixed)
    ensures Stream(prf, fixed, 2 * prf.size)[prf.size..] == prf.Sum([0, 0, 0, 2] + fixed)
  {
    StreamIsBlocks(prf, fixed, 1);
    StreamIsBlocks(prf, fixed, 2);
  }

  /** How many new blocks a read of `want` bytes needs when `have` bytes are
      already available: one more for as long as the available bytes fall short. */
  function BlocksNeeded(have: nat, want: nat, size: nat): (r: nat)
    requires size > 0
    ensures r == 0 <==> want <= have
    decreases want - have
  {
    if want <= have then 0 else 1 + BlocksNeeded(have + size, want, size)
  }

  /** The count is the ceiling of the shortfall over the block size: the last
      block is needed, and no block beyond it is. */
  lemma {:induction false} BlocksNeededIsCeiling(have: nat, want: nat, size: nat)
    requires size > 0
    ensures var r := BlocksNeeded(have, want, size);
            want > have ==> (r - 1) * size < want - have <= r * size
    decreases want - have
  {
    if want > have {
      var r := BlocksNeeded(have, want, size);
      BlocksNeededIsCeiling(have + size, want, size);
      assert r * size == (r - 1) * size + size;
    }
  }

  /** The per-call outputs of a series of reads of the given lengths, made after
      `done` bytes have already been read. */
  ghost function Chunks(prf: Prf, fixed: seq<byte>, done: nat, lengths: seq<nat>): (r: seq<seq<byte>>)
    requires prf.Valid()
    ensures |r| == |lengths|
    decreases |lengths|
  {
    if lengths == [] then []
    else [Stream(prf, fixed, done + lengths[0])[done..]] + Chunks(prf, fixed, done + lengths[0], lengths[1..])
  }

  /** The total of a list of read lengths. */
  function TotalLength(xs: seq<nat>): nat {
    if xs == [] then 0 else xs[0] + TotalLength(xs[1..])
  }

  function Flatten(xss: seq<seq<byte>>): seq<byte> {
    if xss == [] then [] else xss[0] + Flatten(xss[1..])
  }

  /** Chunking invariance: whatever the read lengths, the concatenated outputs
      are the stream prefix of their total length. */
  lemma {:induction false} ChunkingInvariance(prf: Prf, fixed: seq<byte>, done: nat, lengths: seq<nat>)
    requires prf.Valid()
    ensures Stream(prf, fixed, done) + Flatten(Chunks(prf, fixed, done, lengths))
         == Stream(prf, fixed, done + TotalLength(lengths))
    decreases |lengths|
  {
    if lengths != [] {
      var next := done + lengths[0];
      ChunkingInvariance(prf, fixed, next, lengths[1..]);
      StreamPrefix(prf, fixed, done, next);
      StreamPrefix(prf, fixed, next, done + TotalLength(lengths));
      assert Stream(prf, fixed, done) + Stream(prf, fixed, next)[done..] == Stream(prf, fixed, next);
    }
  }
}
