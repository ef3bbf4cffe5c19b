/** lib/md5.c: the context that accepts a message in pieces. md5_process_bytes keeps up to 64 unprocessed
    bytes in a 128-byte buffer; md5_finish_ctx pads them and writes the length. */
module Md5Context {
  import opened Machine
  import opened Rfc1321
  import opened Md5Length
  import Md5Rounds

  /** memcpy to a place in an array. */
  method MemCpy(dst: array<byte>, to: nat, src: seq<byte>)
    requires to + |src| <= dst.Length
    modifies dst
    ensures dst[..] == old(dst[..to]) + src + old(dst[to + |src|..])
  {
    forall k | 0 <= k < |src| {
      dst[to + k] := src[k];
    }
  }

  /** What is in front of the copied bytes, and what is behind them, stays. */
  lemma Copied(before: seq<byte>, to: nat, src: seq<byte>, after: seq<byte>)
    requires to + |src| <= |before| && after == before[..to] + src + before[to + |src|..]
    ensures |after| == |before| && after[..to + |src|] == before[..to] + src
    ensures forall k | to + |src| <= k <= |before| :: after[k..] == before[k..]
  {
    forall k | to + |src| <= k <= |before| ensures after[k..] == before[k..] {
      assert forall i | k <= i < |before| :: after[i] == before[i];
    }
  }

  lemma Divided(compressed: seq<byte>, waiting: seq<byte>, len: nat)
    requires len <= |waiting|
    ensures (compressed + waiting[..len]) + waiting[len..] == compressed + waiting
  {
  }

  class Md5Ctx {
    var A: word
    var B: word
    var C: word
    var D: word
    var total: Total
    var buflen: nat
    const buffer: array<byte>

    /** The part of the message that is compressed into the registers: whole blocks. */
    ghost var compressed: seq<byte>

    function Registers(): State
      reads this`A, this`B, this`C, this`D
    {
      State(A, B, C, D)
    }

    ghost predicate Digested()
      reads this`A, this`B, this`C, this`D, this`total, this`compressed
    {
      && total.Valid()
      && |compressed| % 64 == 0
      && Registers() == Fold(InitialState, compressed)
    }

    ghost predicate Valid()
      reads this, buffer
    {
      Digested() && buffer.Length == 128 && buflen <= 64
    }

    /** The message given so far: what is compressed and what waits in the buffer. */
    ghost function Message(): seq<byte>
      reads this, buffer
      requires buflen <= buffer.Length
    {
      compressed + buffer[..buflen]
    }

    /** The counter holds the number of bytes compressed, modulo 2^64. */
    ghost predicate Counts()
      reads this`total, this`compressed
    {
      total.Value() == |compressed| % TWO_TO_64
    }

    /** md5_init_ctx. */
    constructor ()
      ensures Valid() && Message() == [] && Counts() && fresh(buffer)
    {
      A, B, C, D := 0x67452301, 0xefcdab89, 0x98badcfe, 0x10325476;
      total := Total(0, 0);
      buflen := 0;
      buffer := new byte[128];
      compressed := [];
    }

    /** One turn of the loop of md5_process_block. */
    method Absorb(block: seq<byte>)
      requires Digested() && |block| == 64
      modifies this`A, this`B, this`C, this`D, this`compressed
      ensures Digested() && compressed == old(compressed) + block
    {
      var next := Md5Rounds.CompressBlock(block, Registers());
      NextBlock(compressed, block);
      A, B, C, D := next.a, next.b, next.c, next.d;
      compressed := compressed + block;
      assert Registers() == next;
    }

    /** md5_process_block: the length of data is a multiple of 64. */
    method ProcessBlock(data: seq<byte>)
      requires Digested() && |data| % 64 == 0
      modifies this`A, this`B, this`C, this`D, this`total, this`compressed
      ensures Digested() && compressed == old(compressed) + data
      ensures total == Increment(old(total), |data|)
      ensures |data| < TWO_TO_32 && old(Counts()) ==> Counts()
    {
      hide Fold, Increment;
      total := Increment(total, |data|);
      var done := 0;
      while done < |data|
        invariant done <= |data| && done % 64 == 0
        invariant Digested() && compressed == old(compressed) + data[..done]
        invariant total == Increment(old(total), |data|)
      {
        assert data[..done] + data[done..done + 64] == data[..done + 64];
        Absorb(data[done..done + 64]);
        done := done + 64;
      }
      assert data[..done] == data;
      if |data| < TWO_TO_32 && old(Counts()) {
        IncrementAddsLength(old(total), old(|compressed|), |data|);
      }
    }

    /** Compresses the first len bytes of the buffer and moves the rest to its front. */
    method CompressBuffer(len: nat)
      requires Digested() && buffer.Length == 128 && buflen <= 128
      requires len % 64 == 0 && len <= buflen
      modifies this, buffer
      ensures Digested() && buflen == old(buflen) - len
      ensures Message() == old(Message())
      ensures old(Counts()) ==> Counts()
    {
      hide Fold, Increment;
      ghost var waiting := buffer[..buflen];
      assert waiting[..len] == buffer[..len];
      ProcessBlock(buffer[..len]);
      hide Digested, Counts;
      buflen := buflen - len;
      MemCpy(buffer, 0, buffer[len..len + buflen]);
      assert buffer[..buflen] == waiting[len..];
      Divided(old(compressed), waiting, len);
    }

    /** First part of md5_process_bytes: fill up the buffer and compress what it then holds beyond 64
        bytes. Returns how many bytes it took. */
    method FillBuffer(data: seq<byte>) returns (add: nat)
      requires Valid() && buflen != 0
      modifies this, buffer
      ensures Valid() && add <= |data| && (add < |data| ==> buflen == 0)
      ensures Message() == old(Message()) + data[..add]
      ensures old(Counts()) ==> Counts()
    {
      var leftOver := buflen;
      add := if 128 - leftOver > |data| then |data| else 128 - leftOver;
      MemCpy(buffer, leftOver, data[..add]);
      buflen := buflen + add;
      assert Message() == old(Message()) + data[..add];
      if buflen > 64 {
        CompressBuffer(buflen / 64 * 64);
      }
    }

    method CopyAndProcess(block: seq<byte>)
      requires Valid() && |block| == 64
      modifies this, buffer
      ensures Valid() && buflen == old(buflen) && compressed == old(compressed) + block
      ensures old(Counts()) ==> Counts()
    {
      MemCpy(buffer, 0, block);
      assert buffer[..64] == block;
      ProcessBlock(buffer[..64]);
    }

    /** Second part: whole blocks. An unaligned source is copied block by block through the buffer, and its
        last 1 to 64 bytes are left over; an aligned one is compressed in place. */
    method ProcessWholeBlocks(data: seq<byte>, unaligned: bool) returns (taken: nat)
      requires Valid() && buflen == 0 && |data| >= 64
      modifies this, buffer
      ensures Valid() && buflen == 0 && taken <= |data| && |data| - taken <= 64
      ensures Message() == old(Message()) + data[..taken]
      ensures |data| < TWO_TO_32 && old(Counts()) ==> Counts()
    {
      if unaligned {
        taken := 0;
        while |data| - taken > 64
          invariant taken <= |data|
          invariant Valid() && buflen == 0
          invariant compressed == old(compressed) + data[..taken]
          invariant old(Counts()) ==> Counts()
        {
          assert data[..taken] + data[taken..taken + 64] == data[..taken + 64];
          CopyAndProcess(data[taken..taken + 64]);
          taken := taken + 64;
        }
      } else {
        taken := |data| / 64 * 64;
        ProcessBlock(data[..taken]);
      }
    }

    /** Last part: keep the remaining bytes, unless they complete a block. */
    method KeepRemaining(data: seq<byte>)
      requires Valid() && buflen == 0 && 0 < |data| <= 64
      modifies this, buffer
      ensures Valid() && Message() == old(Message()) + data
      ensures old(Counts()) ==> Counts()
    {
      var leftOver := buflen;
      MemCpy(buffer, leftOver, data);
      buflen := leftOver + |data|;
      assert Message() == old(Message()) + data;
      if buflen >= 64 {
        CompressBuffer(64);
      }
    }

    /** md5_process_bytes. unaligned says how the address reached after the first part compares with the
        alignment of a word; the message does not depend on it. */
    method ProcessBytes(data: seq<byte>, unaligned: bool)
      requires Valid()
      modifies this, buffer
      ensures Valid() && Message() == old(Message()) + data
      ensures |data| < TWO_TO_32 && old(Counts()) ==> Counts()
    {
      var rest := data;
      if buflen != 0 {
        var add := FillBuffer(rest);
        rest := rest[add..];
      }
      assert Message() + rest == old(Message()) + data;
      if |rest| >= 64 {
        var taken := ProcessWholeBlocks(rest, unaligned);
        rest := rest[taken..];
      }
      assert Message() + rest == old(Message()) + data;
      if |rest| > 0 {
        KeepRemaining(rest);
      }
    }

    /** md5_read_ctx: the registers, low-order byte first. */
    method ReadCtx(resbuf: array<byte>)
      requires resbuf.Length >= 16
      modifies resbuf
      ensures resbuf[..16] == Output(Registers()) && resbuf[16..] == old(resbuf[16..])
    {
      hide BytesOfWord;
      ghost var before := resbuf[..];
      MemCpy(resbuf, 0, BytesOfWord(A));
      ghost var first := resbuf[..];
      MemCpy(resbuf, 4, BytesOfWord(B));
      ghost var second := resbuf[..];
      MemCpy(resbuf, 8, BytesOfWord(C));
      ghost var third := resbuf[..];
      MemCpy(resbuf, 12, BytesOfWord(D));
      Copied(before, 0, BytesOfWord(A), first);
      Copied(first, 4, BytesOfWord(B), second);
      Copied(second, 8, BytesOfWord(C), third);
      Copied(third, 12, BytesOfWord(D), resbuf[..]);
      assert before[..0] + BytesOfWord(A) == BytesOfWord(A);
    }

    /** First half of md5_finish_ctx: pad the bytes that wait in the buffer and put the length after them.
        Returns the number of bytes to compress. */
    method PadBuffer() returns (n: nat)
      requires Valid()
      modifies this`total, buffer
      ensures n == 64 || n == 128
      ensures Digested() && buffer.Length == 128
      ensures old(Counts()) ==> compressed + buffer[..n] == old(Message()) + Padding(|old(Message())|)
    {
      var bytes := buflen;
      total := Increment(total, bytes);
      var pad := if bytes >= 56 then 64 + 56 - bytes else 56 - bytes;
      PaddingFits(|compressed|, bytes, pad);
      n := bytes + pad + 8;
      ghost var waiting := buffer[..bytes];
      WriteTail(pad);
      if old(Counts()) {
        PaddedMessage(old(total), compressed, waiting, pad);
      }
    }

    /** Puts pad bytes of fillbuf and the eight length bytes after the waiting bytes. */
    method WriteTail(pad: nat)
      requires buffer.Length == 128 && buflen <= 64 && pad <= 64 && buflen + pad + 8 <= 128 && total.Valid()
      modifies buffer
      ensures buffer[..buflen + pad + 8] == old(buffer[..buflen]) + FILLBUF[..pad] + LengthBytes(total)
    {
      var bytes := buflen;
      MemCpy(buffer, bytes, FILLBUF[..pad]);
      MemCpy(buffer, bytes + pad, BytesOf32(BitsLow(total)));
      MemCpy(buffer, bytes + pad + 4, BytesOf32(BitsHigh(total)));
    }

    /** md5_finish_ctx: whenever the counter is right, the result is the digest of the whole message. */
    method FinishCtx(resbuf: array<byte>)
      requires Valid() && resbuf.Length >= 16 && resbuf != buffer
      modifies this, buffer, resbuf
      ensures old(Counts()) ==> resbuf[..16] == Digest(old(Message()))
      ensures resbuf[16..] == old(resbuf[16..])
    {
      var n := PadBuffer();
      ProcessBlock(buffer[..n]);
      ReadCtx(resbuf);
    }
  }

  lemma PaddedMessage(t: Total, compressed: seq<byte>, waiting: seq<byte>, pad: nat)
    requires t.Valid() && t.Value() == |compressed| % TWO_TO_64
    requires |compressed| % 64 == 0 && |waiting| <= 64
    requires pad == if |waiting| >= 56 then 64 + 56 - |waiting| else 56 - |waiting|
    ensures compressed + (waiting + FILLBUF[..pad] + LengthBytes(Increment(t, |waiting|)))
         == (compressed + waiting) + Padding(|compressed + waiting|)
  {
    hide LengthBytes, LittleEndian64, Increment, Padding, Zeros;
    var n := |compressed| + |waiting|;
    IncrementAddsLength(t, |compressed|, |waiting|);
    LengthField(Increment(t, |waiting|), n);
    PaddingFits(|compressed|, |waiting|, pad);
    var fill, field := FILLBUF[..pad], LengthBytes(Increment(t, |waiting|));
    JoinPadding(n, fill, field);
    Regroup(compressed, waiting, fill, field);
  }

  lemma Regroup(x: seq<byte>, y: seq<byte>, z: seq<byte>, w: seq<byte>)
    ensures x + (y + z + w) == (x + y) + (z + w)
  {
  }

  lemma JoinPadding(n: nat, fill: seq<byte>, field: seq<byte>)
    requires fill == [0x80] + Zeros(ZeroCount(n)) && field == LittleEndian64(8 * n)
    ensures fill + field == Padding(n)
  {
  }

  lemma NextBlock(done: seq<byte>, block: seq<byte>)
    requires |done| % 64 == 0 && |block| == 64
    ensures Fold(InitialState, done + block) == Compress(Fold(InitialState, done), block)
  {
    FoldConcat(InitialState, done, block);
    assert block[..64] == block;
  }

  const FILLBUF: seq<byte> := [0x80] + Zeros(63)

  /** With up to 64 bytes waiting, the bytes that md5_finish_ctx appends end a block, the first or the
      second, and are the padding of the standard. */
  lemma PaddingFits(n: nat, bytes: nat, pad: nat)
    requires n % 64 == 0 && bytes <= 64 && pad == if bytes >= 56 then 64 + 56 - bytes else 56 - bytes
    ensures bytes + pad + 8 == 64 || bytes + pad + 8 == 128
    ensures FILLBUF[..pad] == [0x80] + Zeros(ZeroCount(n + bytes))
  {
    assert ZeroCount(n + bytes) == pad - 1;
  }

  /** md5_buffer. */
  method Md5Buffer(data: seq<byte>, unaligned: bool, resblock: array<byte>)
    requires resblock.Length >= 16
    modifies resblock
    ensures |data| < TWO_TO_32 ==> resblock[..16] == Digest(data)
  {
    var ctx := new Md5Ctx();
    ctx.ProcessBytes(data, unaligned);
    assert [] + data == data;
    ctx.FinishCtx(resblock);
  }

  // ---- Any chunking -------------------------------------------------------------------------

  function Concat(chunks: seq<seq<byte>>): seq<byte> {
    if |chunks| == 0 then [] else Concat(chunks[..|chunks| - 1]) + chunks[|chunks| - 1]
  }

  /** Chunking independence: however a message is cut into pieces, each shorter than 2^32 bytes, and
      however each piece is aligned, the result is the digest of the message. */
  method DigestOfChunks(chunks: seq<seq<byte>>, unaligned: seq<bool>, resbuf: array<byte>)
    requires |unaligned| == |chunks| && resbuf.Length >= 16
    requires forall i | 0 <= i < |chunks| :: |chunks[i]| < TWO_TO_32
    modifies resbuf
    ensures resbuf[..16] == Digest(Concat(chunks))
  {
    var ctx := new Md5Ctx();
    for i := 0 to |chunks|
      invariant ctx.Valid() && ctx.Counts() && ctx.Message() == Concat(chunks[..i])
      invariant fresh(ctx) && fresh(ctx.buffer)
    {
      assert chunks[..i + 1][..i] == chunks[..i];
      ctx.ProcessBytes(chunks[i], unaligned[i]);
    }
    assert chunks[..|chunks|] == chunks;
    ctx.FinishCtx(resbuf);
  }
}
