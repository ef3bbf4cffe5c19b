/** sanei/sanei_wire.c: changing the direction of a wire, calls, replies, and freeing what a call has returned. */
module WireCall {
  import opened Machine
  import opened WireSpec
  import opened WireRoundTrip
  import opened WireReceived
  import opened WireIo
  import opened WireTransfer

  /** flush: send everything that waits, or drop everything that has been read. */
  method Flush(w: Wire)
    requires w.Valid()
    modifies w`curr, w`end, w`status, w.io, w.buffer
    ensures w.Valid() && w.io.inbox == old(w.io.inbox) && (old(w.io.Reliable()) ==> w.io.Reliable())
    ensures w.direction == FREE ==> View(w) == old(View(w))
    ensures w.direction == DECODE ==>
              w.curr == w.end == 0 && w.status == old(w.status) && w.io.sent == old(w.io.sent)
    ensures w.direction == ENCODE && old(w.status) == 0 ==>
              if w.status == 0 then w.io.sent == old(w.Emitted()) && w.curr == 0
              else w.Repeats(old(w.io.sent), old(w.buffer[..w.curr])) && w.io.sent <= old(w.Emitted())
                   && !old(w.io.Reliable())
    ensures w.direction == ENCODE && old(w.status) != 0 ==> w.status == old(w.status) && w.io.sent == old(w.io.sent)
  {
    if w.direction == ENCODE {
      w.Space(w.buffer.Length + 1);
      assert w.io.sent + w.buffer[..0] == w.io.sent;
    } else if w.direction == DECODE {
      w.curr, w.end := 0, 0;
    }
  }

  /** What has to be sent before anything else. */
  ghost function Backlog(w: Wire): seq<Byte>
    reads w, w.io, w.buffer
    requires w.Valid()
  {
    if w.direction == ENCODE then w.Emitted() else w.io.sent
  }

  /** sanei_w_set_dir: nothing waits afterwards in either direction. */
  method SetDir(w: Wire, dir: Direction)
    requires w.Valid() && w.status == 0 && w.direction != FREE && dir != FREE
    modifies w`curr, w`end, w`status, w`direction, w.io, w.buffer
    ensures w.Valid() && w.direction == dir && w.io.inbox == old(w.io.inbox)
            && (old(w.io.Reliable()) ==> w.io.Reliable())
    ensures if w.status == 0 then
              w.io.sent == old(Backlog(w)) && w.curr == 0 && (dir == DECODE ==> w.Pending() == w.io.inbox)
            else w.io.sent <= old(Backlog(w)) && !old(w.io.Reliable())
  {
    Flush(w);
    w.direction := dir;
    Flush(w);
    if dir == DECODE {
      assert w.buffer[0..0] + w.io.inbox == w.io.inbox;
    }
  }

  /** What a request consists of. */
  function Request(version: int, procnum: int, argument: Codec, arg: Value): Encoded
    requires WellFormed(argument, version, 0, arg)
  {
    Encoded(WordBytes(procnum), true).Then(Enc(argument, version, 0, arg))
  }

  /** The first part of sanei_w_call: the request is put on the stream after what was already there. */
  method SendRequest(w: Wire, procnum: int, argument: Codec, arg: Value)
    requires w.Valid() && w.direction != FREE && IsWord(procnum) && WellFormed(argument, w.version, 0, arg)
    modifies w`curr, w`end, w`status, w`direction, w`allocatedMemory, w.io, w.buffer
    ensures w.Valid() && w.direction == ENCODE && w.io.inbox == old(w.io.inbox)
    ensures w.allocatedMemory == old(w.allocatedMemory) && (old(w.io.Reliable()) ==> w.io.Reliable())
    ensures var e := Request(w.version, procnum, argument, arg);
            if w.status == 0 then e.valid && w.Emitted() == old(Backlog(w)) + e.bytes
            else w.io.sent <= old(Backlog(w)) + e.bytes
                 && (old(w.io.Reliable()) ==> !e.valid && w.status == EINVAL_ERRNO)
  {
    hide Enc, WellFormed, WordBytes, Transfers;
    w.status := 0;
    SetDir(w, ENCODE);
    ghost var s, e := View(w), Enc(argument, w.version, 0, arg);
    ghost var n := WWord(w, procnum);
    ghost var m := View(w);
    WordTransfers(s, procnum, n, m);
    ghost var v := Transfer(w, argument, 0, arg);
    TransferSends(argument, arg, m, v, View(w));
    SendsThen(s, Encoded(WordBytes(procnum), true), m, e, View(w));
    RequestSent(old(Backlog(w)), s, Request(w.version, procnum, argument, arg), View(w), old(w.io.Reliable()));
  }

  /** A request that starts with nothing in the buffer. */
  lemma RequestSent(backlog: seq<Byte>, s: Snap, e: Encoded, t: Snap, reliable: bool)
    requires if s.status == 0 then s.emitted == s.sent == backlog else s.sent <= backlog && !reliable
    requires Sends(s, e, t) && (reliable ==> s.reliable)
    ensures if t.status == 0 then e.valid && t.emitted == backlog + e.bytes
            else t.sent <= backlog + e.bytes && (reliable ==> !e.valid && t.status == EINVAL_ERRNO)
  {
  }

  lemma TransferSends(c: Codec, v: Value, s: Snap, r: Value, t: Snap)
    requires s.direction == ENCODE && Transfers(c, 0, v, s, r, t)
    ensures WellFormed(c, s.version, 0, v) && t.direction == ENCODE && Sends(s, Enc(c, s.version, 0, v), t)
  {
    hide Enc, WellFormed;
  }

  /** sanei_w_call: if the status is 0, the request has been sent in full and reply is what the connection holds;
      a connection without failures makes the call succeed whenever the request is valid and the reply
      can be decoded. */
  method Call(w: Wire, procnum: int, argument: Codec, arg: Value, replyCodec: Codec) returns (reply: Value)
    requires w.Valid() && w.direction != FREE && IsWord(procnum) && WellFormed(argument, w.version, 0, arg)
    modifies w`curr, w`end, w`status, w`direction, w`allocatedMemory, w.io, w.buffer
    ensures w.Valid() && w.direction != FREE
    ensures var e := Request(w.version, procnum, argument, arg);
            var d := Dec(replyCodec, w.version, old(w.io.inbox), old(w.allocatedMemory));
            && (w.status == 0 ==>
                  && e.valid && w.io.sent == old(Backlog(w)) + e.bytes
                  && w.direction == DECODE && d == Got(reply, w.Pending(), w.allocatedMemory))
            && (old(w.io.Reliable()) && w.status != 0 ==>
                  w.status == if e.valid && d.Failed? then Errno(d.error) else EINVAL_ERRNO)
            && (old(w.io.Reliable()) && e.valid && d.Got? ==> w.status == 0)
  {
    hide Enc, Dec, WellFormed, WordBytes, Transfers;
    SendRequest(w, procnum, argument, arg);
    reply := Nothing;
    if w.status == 0 {
      SetDir(w, DECODE);
      ghost var s := View(w);
      reply := Transfer(w, replyCodec, 0, Nothing);
      TransferReceives(replyCodec, 0, Nothing, s, reply, View(w));
    }
  }

  /** sanei_w_reply: the whole reply has been sent if the status is 0. */
  method Reply(w: Wire, replyCodec: Codec, reply: Value)
    requires w.Valid() && w.direction != FREE && WellFormed(replyCodec, w.version, 0, reply)
    modifies w`curr, w`end, w`status, w`direction, w`allocatedMemory, w.io, w.buffer
    ensures w.Valid() && w.direction == ENCODE && w.allocatedMemory == old(w.allocatedMemory)
    ensures var e := Enc(replyCodec, w.version, 0, reply);
            if w.status == 0 then e.valid && w.io.sent == old(Backlog(w)) + e.bytes
            else w.io.sent <= old(Backlog(w)) + e.bytes
                 && (old(w.io.Reliable()) ==> !e.valid && w.status == EINVAL_ERRNO)
  {
    hide Enc, Dec, WellFormed, Transfers;
    w.status := 0;
    SetDir(w, ENCODE);
    ghost var s := View(w);
    ghost var v := Transfer(w, replyCodec, 0, reply);
    TransferSends(replyCodec, reply, s, v, View(w));
    RequestSent(old(Backlog(w)), s, Enc(replyCodec, w.version, 0, reply), View(w), old(w.io.Reliable()));
    Flush(w);
  }

  lemma TransferFrees(c: Codec, v: Value, s: Snap, r: Value, t: Snap)
    requires s.direction == FREE && Transfers(c, 0, v, s, r, t)
    ensures Readable(c, s.version, 0, v) && t == s.(mem := s.mem - Freed(c, s.version, 0, v), status := t.status)
  {
    hide Freed, Readable;
  }

  /** sanei_w_free. */
  method Free(w: Wire, codec: Codec, v: Value)
    requires w.Valid() && Readable(codec, w.version, 0, v)
    modifies w`curr, w`end, w`status, w`direction, w`allocatedMemory, w.io, w.buffer
    ensures w.Valid()
    ensures View(w) == old(View(w)).(mem := old(w.allocatedMemory) - Freed(codec, w.version, 0, v), status := w.status)
  {
    hide Dec, Enc, Freed, Readable, Transfers;
    ghost var s := View(w);
    var savedDir := w.direction;
    w.direction := FREE;
    ghost var m := View(w);
    assert m == s.(direction := FREE);
    var r := Transfer(w, codec, 0, v);
    ghost var t := View(w);
    TransferFrees(codec, v, m, r, t);
    w.direction := savedDir;
    assert View(w) == t.(direction := savedDir);
  }

  /** A whole exchange. The server answers with v, which fits; the client gets v, leaves what follows it, and has
      as much memory after freeing it as before the call, at every depth of v. */
  method Exchange(w: Wire, procnum: int, argument: Codec, arg: Value, replyCodec: Codec, ghost v: Value,
                  ghost rest: seq<Byte>)
    requires w.Valid() && w.direction != FREE && IsWord(procnum) && WellFormed(argument, w.version, 0, arg)
    requires Sized(replyCodec) && WellFormed(replyCodec, w.version, 0, v)
    requires w.io.Reliable() && w.io.inbox == Enc(replyCodec, w.version, 0, v).bytes + rest
    requires Request(w.version, procnum, argument, arg).valid && Enc(replyCodec, w.version, 0, v).valid
    requires Fits(replyCodec, w.version, v, w.allocatedMemory)
    modifies w`curr, w`end, w`status, w`direction, w`allocatedMemory, w.io, w.buffer
    ensures w.Valid() && w.Pending() == rest
    ensures w.io.sent == old(Backlog(w)) + Request(w.version, procnum, argument, arg).bytes
    ensures w.allocatedMemory == old(w.allocatedMemory)
  {
    hide Dec, Enc, Freed, WellFormed, Readable, Sized, Mem, Fits, Request;
    RoundTrip(replyCodec, w.version, 0, v, rest, w.allocatedMemory);
    var reply := Call(w, procnum, argument, arg, replyCodec);
    assert reply == v;
    WhatIsSentIsReadable(replyCodec, w.version, 0, v);
    Free(w, replyCodec, reply);
    FreeingUndoesReceiving(replyCodec, w.version, 0, v);
  }

  /** A flush, and then a call. If a write of the flush fails after k bytes, they are still in the buffer, and the
      call sends them again before its request. */
  method FlushAndCall(w: Wire, procnum: int, argument: Codec, arg: Value, replyCodec: Codec)
    returns (failed: bool, k: nat, reply: Value)
    requires w.Valid() && w.direction == ENCODE && w.status == 0 && IsWord(procnum)
             && WellFormed(argument, w.version, 0, arg)
    modifies w`curr, w`end, w`status, w`direction, w`allocatedMemory, w.io, w.buffer
    ensures w.Valid() && k <= old(w.curr)
    ensures var waiting, e := old(w.buffer[..w.curr]), Request(w.version, procnum, argument, arg);
            w.status == 0 ==>
              w.io.sent == old(w.io.sent) + (if failed then waiting[..k] + waiting[..k] else waiting) + e.bytes
  {
    hide Enc, Dec, WellFormed, WordBytes, Request;
    ghost var sent, waiting := w.io.sent, w.buffer[..w.curr];
    Flush(w);
    failed, k := w.status != 0, w.curr;
    ghost var again := if failed then waiting[..k] + waiting[..k] else waiting;
    assert w.Emitted() == sent + again by {
      assert w.io.sent + w.buffer[..0] == w.io.sent;
      assert (sent + waiting[..k]) + waiting[..k] == sent + (waiting[..k] + waiting[..k]);
    }
    reply := Call(w, procnum, argument, arg, replyCodec);
  }

  /** A call of any peer, whose reply is freed, no array in it looking longer than it is. As much memory as before is
      allocated exactly if no string in the reply holds a NUL and every array looks as long as it is; otherwise it is
      more. */
  method CallAndFree(w: Wire, procnum: int, argument: Codec, arg: Value, replyCodec: Codec) returns (ok: bool)
    requires w.Valid() && w.direction != FREE && IsWord(procnum) && WellFormed(argument, w.version, 0, arg)
    requires var d := Dec(replyCodec, w.version, w.io.inbox, w.allocatedMemory);
             d.Got? ==> Readable(replyCodec, w.version, 0, d.value)
    modifies w`curr, w`end, w`status, w`direction, w`allocatedMemory, w.io, w.buffer
    ensures w.Valid()
    ensures ok ==> w.allocatedMemory >= old(w.allocatedMemory)
    ensures ok && Plain(replyCodec) ==>
              (w.allocatedMemory == old(w.allocatedMemory) <==>
               Balanced(replyCodec, w.version, 0, old(w.io.inbox), old(w.allocatedMemory)))
  {
    hide Dec, Enc, Freed, WellFormed, Readable, Plain, Balanced, Request;
    ghost var inbox, mem := w.io.inbox, w.allocatedMemory;
    var reply := Call(w, procnum, argument, arg, replyCodec);
    ok := w.status == 0;
    if ok {
      ReceivedFrees(replyCodec, w.version, 0, inbox, mem);
      Free(w, replyCodec, reply);
    }
  }
}
