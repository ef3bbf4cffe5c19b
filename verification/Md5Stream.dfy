/** lib/md5.c, md5_stream: the digest of a file, read in blocks of 4096 bytes with partial reads. */
module Md5Stream {
  import opened Rfc1321
  import opened Md5Length
  import opened Md5Context

  const BLOCKSIZE: nat := 4096

  /** What one call of fread does: it delivers up to this many bytes (at least one, unless the end of the
      file is reached), or it fails. */
  datatype Fetch = Deliver(atMost: nat) | Fail

  /** A file open for reading, with an arbitrary plan of partial reads and failures. When the plan is used
      up, reads are as long as they can be. */
  class Stream {
    var rest: seq<byte>
    var plan: seq<Fetch>
    var error: bool

    /** fread (buffer + at, 1, max, stream). */
    method Fread(buffer: array<byte>, at: nat, max: nat) returns (n: nat)
      requires max > 0 && at + max <= buffer.Length
      modifies this, buffer
      ensures n <= max && n <= |old(rest)| && rest == old(rest)[n..]
      ensures buffer[..at + n] == old(buffer[..at]) + old(rest)[..n]
      ensures n == 0 <==> |old(rest)| == 0 || (|old(plan)| > 0 && old(plan)[0] == Fail)
      ensures plan == if |old(plan)| > 0 then old(plan)[1..] else []
      ensures error <==> old(error) || (|old(plan)| > 0 && old(plan)[0] == Fail)
    {
      var most := if max <= |rest| then max else |rest|;
      if |plan| > 0 {
        match plan[0] {
          case Fail =>
            error := true;
            n := 0;
          case Deliver(k) =>
            n := if k < most then (if k == 0 && most > 0 then 1 else k) else most;
        }
        plan := plan[1..];
      } else {
        n := most;
      }
      MemCpy(buffer, at, rest[..n]);
      rest := rest[n..];
    }
  }

  /** The inner loop: read until the block is full or a read delivers nothing. n is the last count. */
  method ReadBlock(stream: Stream, buffer: array<byte>) returns (sum: nat, n: nat)
    requires buffer.Length >= BLOCKSIZE && !stream.error
    modifies stream, buffer
    ensures sum <= BLOCKSIZE && old(stream.rest) == buffer[..sum] + stream.rest
    ensures n != 0 ==> sum == BLOCKSIZE && !stream.error
    ensures n == 0 && !stream.error ==> stream.rest == []
    ensures stream.error ==> n == 0 && Fail in old(stream.plan)
    ensures forall f | f in stream.plan :: f in old(stream.plan)
  {
    sum, n := 0, 1;
    while sum < BLOCKSIZE && n != 0
      invariant sum <= BLOCKSIZE && old(stream.rest) == buffer[..sum] + stream.rest
      invariant n == 0 && !stream.error ==> stream.rest == []
      invariant stream.error ==> n == 0 && Fail in old(stream.plan)
      invariant forall f | f in stream.plan :: f in old(stream.plan)
      decreases |stream.rest|, n
    {
      n := stream.Fread(buffer, sum, BLOCKSIZE - sum);
      sum := sum + n;
    }
  }

  /** md5_stream returns 1 exactly when a read fails, and otherwise the digest of everything in the file. */
  method DigestStream(stream: Stream, resblock: array<byte>) returns (result: int)
    requires resblock.Length >= 16 && !stream.error
    modifies stream, resblock
    ensures result == 0 || result == 1
    ensures result == 1 <==> stream.error
    ensures result == 0 ==> resblock[..16] == Digest(old(stream.rest))
    ensures Fail !in old(stream.plan) ==> result == 0
  {
    hide Digest, Fold;
    var ctx := new Md5Ctx();
    var buffer := new byte[BLOCKSIZE + 72];
    var sum: nat;
    while true
      invariant ctx.Valid() && ctx.Counts() && ctx.buflen == 0 && !stream.error
      invariant ctx.compressed + stream.rest == old(stream.rest)
      invariant fresh(ctx) && fresh(ctx.buffer) && fresh(buffer) && buffer != ctx.buffer
      invariant forall f | f in stream.plan :: f in old(stream.plan)
      decreases |stream.rest|
    {
      var n;
      ghost var before := stream.rest;
      sum, n := ReadBlock(stream, buffer);
      Shift(ctx.compressed, before, buffer[..sum], stream.rest);
      if n == 0 && stream.error {
        return 1;
      }
      if n == 0 {
        break;
      }
      ctx.ProcessBlock(buffer[..BLOCKSIZE]);
    }
    assert ctx.Message() == ctx.compressed;
    FinishStream(ctx, buffer[..sum], resblock);
    result := 0;
  }

  lemma Shift(done: seq<byte>, before: seq<byte>, block: seq<byte>, rest: seq<byte>)
    requires before == block + rest
    ensures done + before == (done + block) + rest && (rest == [] ==> done + before == done + block)
  {
  }

  /** The end of md5_stream: the bytes of the last, incomplete block. */
  method FinishStream(ctx: Md5Ctx, last: seq<byte>, resblock: array<byte>)
    requires ctx.Valid() && ctx.Counts() && |last| <= BLOCKSIZE && resblock.Length >= 16 && resblock != ctx.buffer
    modifies ctx, ctx.buffer, resblock
    ensures resblock[..16] == Digest(old(ctx.Message()) + last)
  {
    ghost var message := ctx.Message() + last;
    if |last| > 0 {
      ctx.ProcessBytes(last, false);
    }
    assert ctx.Message() == message;
    ctx.FinishCtx(resblock);
  }
}
