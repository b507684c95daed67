/** The stream generator of kdf.go: a `kdf` object holds the keyed PRF, the
    fixed input, the 32-bit block counter and the unread tail of the last block,
    and `Read` fills a caller's buffer of any length from that state. */
module Kdf {
  import opened Bytes
  import opened CounterMode

  function Min(a: nat, b: nat): nat {
    if a < b then a else b
  }

  /** Go's `copy(dst[at:], src)`: as many bytes as both sides have room for. */
  method CopyInto(dst: array<byte>, at: nat, src: seq<byte>) returns (n: nat)
    requires at <= dst.Length
    modifies dst
    ensures n == Min(dst.Length - at, |src|)
    ensures dst[..at + n] == old(dst[..at]) + src[..n]
    ensures dst[at + n..] == old(dst[at + n..])
  {
    n := Min(dst.Length - at, |src|);
    forall i | at <= i < at + n {
      dst[i] := src[i - at];
    }
  }

  class Kdf {
    const prf: Prf
    const fixedInput: seq<byte>
    var counter: uint32
    var buf: seq<byte>

    /** The buffer the object was created with (empty for `New`). */
    ghost const seed: seq<byte>
    /** How many blocks have been computed; `counter` is this count modulo 2^32. */
    ghost var blocks: nat
    /** Everything `Read` has handed out so far, in order. */
    ghost var delivered: seq<byte>

    /** What was handed out, followed by what is buffered, is the initial buffer
        followed by the blocks computed so far; the buffer never holds a whole block
        once a block has been computed. */
    ghost predicate Valid()
      reads this
    {
      prf.Valid() &&
      counter == CounterAt(blocks) &&
      (blocks > 0 ==> |buf| < prf.size) &&
      delivered + buf == seed + Blocks(prf, fixedInput, blocks)
    }

    /** The literal `&kdf{prf: prf, fixedInput: fixedInput, buf: buf}`, counter zero. */
    constructor (prf: Prf, fixedInput: seq<byte>, buf: seq<byte>)
      requires prf.Valid()
      ensures Valid()
      ensures this.prf == prf && this.fixedInput == fixedInput
      ensures counter == 0 && this.buf == buf
      ensures seed == buf && blocks == 0 && delivered == []
    {
      this.prf := prf;
      this.fixedInput := fixedInput;
      this.buf := buf;
      counter := 0;
      seed := buf;
      blocks := 0;
      delivered := [];
    }

    /** One pass of the fill loop's PRF work: increment the counter, reset the
        PRF, write the big-endian counter and the fixed input, and take the sum. */
    method NextBlock() returns (ko: seq<byte>)
      requires prf.Valid() && counter == CounterAt(blocks)
      modifies this`counter, this`blocks
      ensures blocks == old(blocks) + 1 && counter == CounterAt(blocks)
      ensures counter == Increment(old(counter))
      ensures ko == prf.Sum(BE32(counter) + fixedInput)
      ensures ko == Block(prf, fixedInput, blocks)
      ensures Blocks(prf, fixedInput, blocks) == Blocks(prf, fixedInput, old(blocks)) + ko
    {
      CounterAtSucc(blocks);
      counter := Increment(counter);
      blocks := blocks + 1;
      ko := prf.Sum(BE32(counter) + fixedInput);
    }

    /** The fill loop of `Read`: while the caller's buffer has room, compute the
        next block and copy as much of it as fits after position `pos`. */
    method Fill(bs: array<byte>, pos: nat, ko: seq<byte>, n: nat, ghost buf0: seq<byte>, ghost out: seq<byte>)
      returns (ko': seq<byte>, n': nat, ghost generated: seq<byte>, ghost added: nat)
      requires prf.Valid() && counter == CounterAt(blocks)
      requires pos == |out| <= bs.Length && bs[..pos] == out
      requires Filling(buf0, bs.Length, prf.size, [], out, ko, n, 0)
      modifies this`counter, this`blocks, bs
      ensures blocks == old(blocks) + added && counter == CounterAt(blocks)
      ensures Blocks(prf, fixedInput, blocks) == Blocks(prf, fixedInput, old(blocks)) + generated
      ensures Filling(buf0, bs.Length, prf.size, generated, bs[..], ko', n', added)
    {
      ghost var before := Blocks(prf, fixedInput, blocks);
      ghost var b0 := blocks;
      ghost var out' := out;
      var want := bs.Length;
      var pos' := pos;
      ko', n', generated, added := ko, n, [], 0;
      while pos' < want
        invariant pos' <= want && pos' == |out'| && bs[..pos'] == out'
        invariant blocks == b0 + added && counter == CounterAt(blocks)
        invariant Blocks(prf, fixedInput, blocks) == before + generated
        invariant Filling(buf0, bs.Length, prf.size, generated, out', ko', n', added)
        decreases want - pos'
      {
        var block := NextBlock();
        ghost var n0 := n';
        n' := CopyInto(bs, pos', block);
        FillStep(buf0, bs.Length, prf.size, generated, out', ko', n0, added, block, n');
        Extend(before, generated, block);
        ko' := block;
        generated := generated + block;
        out' := out' + block[..n'];
        added := added + 1;
        pos' := pos' + n';
      }
      assert bs[..] == out';
    }

    /** Fills all of `bs`: first from the leftover bytes, then from new blocks,
        each computed with the counter incremented first; the unread tail of the
        last block becomes the new leftover buffer. */
    method Read(bs: array<byte>) returns (count: nat)
      requires Valid()
      modifies this, bs
      ensures Valid()
      ensures count == bs.Length
      ensures delivered == old(delivered) + bs[..]
      ensures blocks == old(blocks) + BlocksNeeded(|old(buf)|, bs.Length, prf.size)
      ensures bs[..Min(|old(buf)|, bs.Length)] == old(buf)[..Min(|old(buf)|, bs.Length)]
      ensures bs.Length <= |old(buf)| ==> buf == old(buf)[bs.Length..] && counter == old(counter)
      ensures old(buf) + Blocks(prf, fixedInput, blocks)[|Blocks(prf, fixedInput, old(blocks))|..] == bs[..] + buf
      ensures seed == [] ==> bs[..] == Stream(prf, fixedInput, |delivered|)[|old(delivered)|..]
      ensures seed == [] ==> |buf| < prf.size
    {
      ghost var b0, buf0, d0 := blocks, buf, delivered;
      ghost var before := Blocks(prf, fixedInput, b0);
      var want := bs.Length;

      // Copy leftovers...
      var n := CopyInto(bs, 0, buf);
      var pos := n;
      var ko := buf;
      ghost var out := bs[..pos];
      FillStart(buf0, want, prf.size, out, ko, n);

      // Fill the buffer...
      ghost var generated, added;
      ko, n, generated, added := Fill(bs, pos, ko, n, buf0, out);

      // Save the remainder...
      buf := ko[n..];
      delivered := d0 + bs[..];
      count := want;
      out := bs[..];
      FillDone(buf0, want, prf.size, generated, out, ko, n, added);
      SaveRemainder(seed, d0, buf0, before, Blocks(prf, fixedInput, blocks), generated, out, buf);
      if seed == [] {
        StreamView(this);
      }
    }
  }

  /** Appending one more block to the running account regroups the
      concatenation; stated apart so the fill loop's proof stays small. */
  lemma Extend(before: seq<byte>, generated: seq<byte>, block: seq<byte>)
    ensures (before + generated) + block == before + (generated + block)
  {
  }

  /** Handing out `out` and keeping `rest` accounts for the old leftovers
      and the newly generated blocks. */
  lemma SaveRemainder(seed: seq<byte>, d0: seq<byte>, buf0: seq<byte>, before: seq<byte>, after: seq<byte>,
                      generated: seq<byte>, out: seq<byte>, rest: seq<byte>)
    requires d0 + buf0 == seed + before
    requires after == before + generated
    requires buf0 + generated == out + rest
    ensures (d0 + out) + rest == seed + after
    ensures after[|before|..] == generated
    ensures buf0 + after[|before|..] == out + rest
  {
    calc {
      (d0 + out) + rest;
      d0 + (buf0 + generated);
      (seed + before) + generated;
    }
  }

  /** The state of the fill loop of `Read` after `added` new blocks: `out` is
      what has been written to the caller's buffer, `ko` the last block (the old
      leftovers before any new block) of which the first `n` bytes are used. */
  ghost predicate Filling(buf0: seq<byte>, want: nat, size: nat, generated: seq<byte>,
                          out: seq<byte>, ko: seq<byte>, n: nat, added: nat)
  {
    var drained := Min(|buf0|, want);
    size > 0 && drained <= |out| <= want && n <= |ko| &&
    added + BlocksNeeded(|buf0| + |generated|, want, size) == BlocksNeeded(|buf0|, want, size) &&
    out[..drained] == buf0[..drained] &&
    buf0 + generated == out + ko[n..] &&
    (|out| < want ==> n == |ko|) &&
    (added == 0 ==> generated == [] && ko == buf0 && n == |out| == drained) &&
    (added > 0 ==> |ko| == size && n > 0 && |buf0| + |generated| - size < want &&
                   |out| == Min(want, |buf0| + |generated|))
  }

  /** Copying the leftovers starts the fill loop. */
  lemma FillStart(buf0: seq<byte>, want: nat, size: nat, out: seq<byte>, ko: seq<byte>, n: nat)
    requires size > 0 && ko == buf0 && n == Min(|buf0|, want) && out == buf0[..n]
    ensures Filling(buf0, want, size, [], out, ko, n, 0)
  {
    assert buf0 == buf0[..n] + buf0[n..];
  }

  /** One more block, of which as much as fits is copied, keeps the fill loop's invariant. */
  lemma FillStep(buf0: seq<byte>, want: nat, size: nat, generated: seq<byte>,
                 out: seq<byte>, ko: seq<byte>, n: nat, added: nat,
                 block: seq<byte>, m: nat)
    requires Filling(buf0, want, size, generated, out, ko, n, added)
    requires |out| < want && |block| == size && m == Min(want - |out|, size)
    ensures Filling(buf0, want, size, generated + block, out + block[..m], block, m, added + 1)
  {
    var drained := Min(|buf0|, want);
    assert buf0 + generated == out;
    assert (out + block[..m])[..drained] == out[..drained];
    assert buf0 + (generated + block) == out + block[..m] + block[m..];
  }

  /** When the caller's buffer is full, the loop has produced exactly the
      blocks the shortfall needed, and what is left of the last block is less
      than a block (or the untouched tail of the old leftovers). */
  lemma FillDone(buf0: seq<byte>, want: nat, size: nat, generated: seq<byte>,
                 out: seq<byte>, ko: seq<byte>, n: nat, added: nat)
    requires Filling(buf0, want, size, generated, out, ko, n, added) && |out| == want
    ensures added == BlocksNeeded(|buf0|, want, size)
    ensures added == 0 ==> want <= |buf0| && ko[n..] == buf0[want..]
    ensures added > 0 ==> |ko[n..]| < size
  {
  }

  /** For a generator that started with an empty buffer (every one `New` builds),
      the bytes handed out are exactly the stream prefix of their length, and the
      buffer holds the next bytes of the stream, fewer than one block. */
  lemma StreamView(k: Kdf)
    requires k.Valid() && k.seed == []
    ensures k.delivered == Stream(k.prf, k.fixedInput, |k.delivered|)
    ensures k.buf == Stream(k.prf, k.fixedInput, |k.delivered| + |k.buf|)[|k.delivered|..]
    ensures |k.buf| < k.prf.size
  {
    var all := Blocks(k.prf, k.fixedInput, k.blocks);
    assert k.delivered + k.buf == all;
    StreamIsBlocks(k.prf, k.fixedInput, k.blocks);
    BlocksLength(k.prf, k.fixedInput, k.blocks);
    assert Stream(k.prf, k.fixedInput, |all|) == all;
    StreamPrefix(k.prf, k.fixedInput, |k.delivered|, |all|);
    assert k.delivered == all[..|k.delivered|];
  }

  /** Once a block has been computed, the buffer is the unread tail of block
      number `blocks`, the one the counter names. */
  lemma LeftoverIsBlockTail(k: Kdf)
    requires k.Valid() && k.blocks > 0
    ensures k.buf == Block(k.prf, k.fixedInput, k.blocks)[k.prf.size - |k.buf|..]
  {
    var last := Block(k.prf, k.fixedInput, k.blocks);
    var prefix := k.seed + Blocks(k.prf, k.fixedInput, k.blocks - 1);
    assert k.delivered + k.buf == prefix + last;
    var all := prefix + last;
    assert k.buf == all[|all| - |k.buf|..];
  }

  /** For a generator built by `New`, the buffer is empty exactly when the
      bytes handed out so far end on a block boundary. */
  lemma BufferEmptyOnBoundary(k: Kdf)
    requires k.Valid() && k.seed == []
    ensures k.buf == [] <==> |k.delivered| % k.prf.size == 0
  {
    var size := k.prf.size;
    BlocksLength(k.prf, k.fixedInput, k.blocks);
    assert |k.delivered| + |k.buf| == k.blocks * size;
    if k.blocks > 0 {
      var q := k.blocks - 1;
      assert k.blocks * size == q * size + size;
      if k.buf == [] {
        ModAfterMultiple(k.blocks, 0, size);
      } else {
        ModAfterMultiple(q, size - |k.buf|, size);
      }
    }
  }

  /** `New(h, secret, label, context)`: the PRF is the HMAC `mac` keyed with
      `secret`, whose outputs have `size` bytes. */
  method New(mac: (seq<byte>, seq<byte>) -> seq<byte>, size: nat, secret: seq<byte>, lbl: seq<byte>, context: seq<byte>)
    returns (k: Kdf)
    requires Prf(mac, secret, size).Valid()
    ensures fresh(k) && k.Valid()
    ensures k.prf == Prf(mac, secret, size)
    ensures k.fixedInput == FixedInput(lbl, context)
    ensures k.counter == 0 && k.buf == [] && k.seed == [] && k.delivered == []
  {
    k := new Kdf(Prf(mac, secret, size), FixedInput(lbl, context), []);
  }
}
