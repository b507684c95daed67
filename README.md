# Counter-mode KDF stream (jdtw/kdf), modelled in Dafny

`kdf` is a Go `io.Reader` that yields the output of the "KDF in Counter Mode"
of NIST SP 800-108 (section 5.1 of the 2009 edition). A generator holds:
- a keyed PRF (HMAC over a hash);
- the fixed input `label || 0x00 || context`;
- a 32-bit block counter;
- the unread tail of the last block computed.

`Read` fills a buffer of any length. It first hands out the leftover bytes.
Then it computes blocks `PRF(BE32(counter) || fixedInput)`, incrementing the
counter before each one. It keeps the unused end of the last block for the
next call.

The project has four modules:
- `Bytes` (bytes.dfy) holds bytes, the `uint32` counter with Go's
  wrap-around, and the big-endian counter encoding.
- `CounterMode` (counter_mode.dfy) holds the logical stream as values. It
  defines the PRF `Prf`, the fixed input, the block `B(i) = PRF(BE32(i mod
  2^32) || fixedInput)`, and the stream `B(1) || B(2) || ...`. The stream is
  defined twice, once as concatenated blocks (`Blocks`) and once byte by byte
  (`Stream`), and a lemma proves the two agree. This module also holds the
  block count a read needs and chunking invariance.
- `Kdf` (kdf.dfy) holds the generator. `class Kdf` has the fields of the Go
  struct, plus ghost fields:
  - `blocks`: the number of blocks computed;
  - `delivered`: every byte handed out;
  - `seed`: the buffer the object started with.

  Its invariant `Valid()` states that the bytes handed out, followed by the
  buffer, are the seed followed by `B(1) || ... || B(blocks)`. `Read` is
  proved against that invariant. Its loop lives in `Fill`.
- `KdfTest` (kdf_test.dfy) restates the scenarios of kdf_test.go for every
  PRF.

## Model

| member | source | states |
|---|---|---|
| Bytes.Increment | kdf.go:40 | `counter++` on a `uint32`: the result is (c + 1) mod 2^32, so the largest value wraps to 0 |
| Bytes.CounterAt | kdf.go:40 | the counter after i increments from 0 is i while i is below 2^32 |
| Bytes.CounterAtSucc | kdf.go:40 | one more increment of the Go counter is one more step of the wrapped block count |
| Bytes.BE32 | kdf.go:42 | the counter encodes as exactly four bytes |
| Bytes.DecodeEncode | kdf.go:42 | reading the four bytes back big-endian gives the counter value unchanged |
| Bytes.EncodeDecode | kdf.go:42 | every four-byte string is the encoding of the value it decodes to |
| Bytes.BE32Injective | kdf.go:42 | distinct counter values give distinct PRF input prefixes |
| CounterMode.Prf.Sum | kdf.go:41-44 | Reset, Write and Sum on the HMAC give an output of the hash's size |
| CounterMode.FixedInput | kdf.go:20-23 | the fixed input is the label, one 0x00 byte, then the context, with length \|label\| + 1 + \|context\| |
| CounterMode.FixedInputInjective | kdf.go:20-23 | for labels with no zero byte, the fixed input determines label and context |
| CounterMode.BlockInput | kdf.go:42-43 | the PRF input of block i is the big-endian counter i mod 2^32 followed by the fixed input |
| CounterMode.Block | kdf.go:40-44 | each block is one PRF output of the hash's size |
| CounterMode.BlockPeriod | kdf.go:40-44 | because the counter wraps, block i + 2^32 equals block i |
| CounterMode.BlocksLength | kdf.go:39-47 | k blocks are k times the output size long |
| CounterMode.ByteAtSkip | kdf.go:39-47 | skipping the first m blocks of the stream leaves the stream that starts at block m + 1 |
| CounterMode.BlocksAt | kdf.go:39-47 | byte j of B(1) .. B(k) is byte j of the byte-wise stream |
| CounterMode.StreamIsBlocks | kdf.go:39-47 | the byte-wise stream of k blocks' length is B(1) .. B(k) |
| CounterMode.StreamPrefix | kdf.go:30-51 | a shorter stream prefix is a prefix of a longer one |
| CounterMode.FirstTwoBlocks | kdf.go:40-44 | the first block of the stream is the PRF of `00 00 00 01 \|\| fixedInput`, the second that of `00 00 00 02 \|\| fixedInput` |
| CounterMode.BlocksNeeded | kdf.go:39-47 | a read needs no new block exactly when the buffered bytes cover it |
| CounterMode.BlocksNeededIsCeiling | kdf.go:39-47 | the blocks a read computes are ceil((L - \|buf\|) / size) when L exceeds the buffer |
| CounterMode.ChunkingInvariance | kdf.go:30-51 | the successive stream slices of any list of read lengths, concatenated, are the stream prefix of their total length (`KdfTest.Reads` shows these slices are what the reads return) |
| Kdf.CopyInto | kdf.go:34 | `copy` moves min(room, \|src\|) bytes to the given offset and leaves the bytes before and after them alone |
| Kdf.Kdf.constructor | kdf.go:24-27 | the struct literal: counter 0, the given buffer, and the invariant holds with nothing handed out |
| Kdf.Kdf.NextBlock | kdf.go:40-44 | the counter is incremented first, and the new block is the PRF of the new counter's encoding and the fixed input, which extends B(1) .. B(k) by B(k + 1) |
| Kdf.Kdf.Fill | kdf.go:38-47 | the loop computes one block per pass and copies what fits until the buffer is full, keeping the fill invariant |
| Kdf.Kdf.Read | kdf.go:30-52 | returns len(bs) and fills all of it; leftovers come first; the counter grows by the blocks needed; a read within the buffer computes nothing and drops that prefix from the buffer; the invariant is kept; from `New`, the bytes are the next stream bytes and fewer than one block stays buffered |
| Kdf.FillStart | kdf.go:33-38 | copying the leftovers establishes the fill loop's invariant |
| Kdf.FillStep | kdf.go:39-47 | one more block, copied as far as it fits, keeps the fill loop's invariant |
| Kdf.FillDone | kdf.go:47-50 | at loop exit the blocks computed are the blocks needed, and the remainder is less than a block, or is the untouched tail of the old buffer |
| Kdf.SaveRemainder | kdf.go:50 | handing out the filled bytes and keeping the rest of the last block accounts for every byte of the old buffer and the new blocks |
| Kdf.StreamView | kdf.go:30-52 | for a generator built by `New`, the bytes handed out are the stream prefix of their length, and the buffer holds the next stream bytes, fewer than a block |
| Kdf.LeftoverIsBlockTail | kdf.go:44-50 | once a block has been computed, the buffer is the unread tail of the block the counter names |
| Kdf.BufferEmptyOnBoundary | kdf.go:45-50 | from `New`, the buffer is empty exactly when the bytes handed out end on a block boundary |
| Kdf.New | kdf.go:19-28 | the fixed input is label, 0x00, context; the counter is 0; the buffer is empty |
| KdfTest.ReadBuffered | kdf_test.go:19-20 | a read the buffer covers returns the buffer's prefix, drops it from the buffer and leaves the counter alone |
| KdfTest.ReadNew | kdf_test.go:59-60 | a read from a generator built by `New` returns the next stream bytes of the requested length |
| KdfTest.Buffering | kdf_test.go:14-40 | a generator seeded with 1..6 yields [1], [2, 3], [4, 5, 6], computes no block and ends with an empty buffer |
| KdfTest.Reads | kdf_test.go:59-62 | a series of reads from `New` returns, read by read, the successive stream slices of the requested lengths |
| KdfTest.ReadsAreStreamPrefix | kdf_test.go:57-63 | the outputs of any series of reads from `New`, concatenated, are the stream prefix of their total length |
| KdfTest.HalvesThenBlock | kdf_test.go:57-84 | for any PRF whose block is two halves long, two half-block reads give the PRF of counter 1 and the fixed input, and a whole-block read then gives that of counter 2 |
| KdfTest.ChunkedRead | kdf_test.go:42-85 | two 16-byte reads give the PRF of counter 1 with "label" and "context"; the next 32 bytes are the block for counter 2 |
| KdfTest.ChunkingMatchesBulk | kdf_test.go:57-63 | reads of a and then b bytes equal one read of a + b bytes, and both are the stream prefix |
| KdfTest.BlockBoundary | kdf.go:39-50 | a first read of one byte more than a block leaves counter 2 and keeps block 2 minus its first byte |

## Left out

- HMAC and the hash (`crypto/hmac`, `hash.Hash`; kdf.go:25, kdf.go:41-44) are
  foreign library code. The PRF is a parameter: a deterministic function
  `mac(key, message)` whose outputs all have `size > 0` bytes. `Reset`, `Write`
  and `Sum` become one evaluation on the whole message. The positive size is a
  fact of the source, not a restriction of the model: with an empty block,
  `copy` at kdf.go:45 returns 0 and the loop at kdf.go:39-47 never ends.
- `binary.Write` onto the hash writer (kdf.go:42) is I/O on a `Writer`. It is
  modelled as the pure four-byte encoding `BE32`, so its error result is not
  modelled.
- Go slice aliasing is not modelled. In the source, `ko` and the new `buf`
  reuse the old buffer's backing array through `Sum(ko[:0])` (kdf.go:38,
  kdf.go:44). Here buffers and blocks are immutable sequences, and the caller's
  buffer is a separate array.
- Kdf.Kdf.Read: the second result, `error`, is always nil (kdf.go:51) and is
  not returned.
- The 32-bit counter wraps as Go's `uint32` does. The model follows it rather
  than restricting the number of blocks: `BlockPeriod` shows that the stream
  then repeats after 2^32 blocks. The limit of NIST SP 800-108 on the output
  length is not enforced by the source, and not by the model.
- A generator without a PRF is not modelled: every generator here carries a
  valid PRF. In kdf_test.go:15-17, the hand-seeded generator has a nil PRF, a
  fault only if a block were computed. `KdfTest.Buffering` takes any valid PRF,
  and its reads never compute a block.
- The `io.Reader` assertion (kdf.go:54) is Go typing only.
- The NIST known-answer vectors (kdf_test.go:87-101) and the HMAC-SHA256
  values in `TestKdf` depend on real HMAC. `internal/testvectors` is not part
  of this model. Only the structure of those tests is kept: which counter value
  and fixed input give which bytes, and chunking.
