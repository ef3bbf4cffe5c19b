/** The buffer of sanei/sanei_wire.c: sanei_w_space makes room for outgoing bytes or fetches incoming ones, however
    the reads and writes of the connection are broken up. */
module WireIo {
  import opened Machine
  import opened WireSpec

  datatype Direction = ENCODE | DECODE | FREE

  const EINVAL_ERRNO := 22
  const ENOMEM_ERRNO := 12

  function Errno(e: Error): int {
    if e == ENOMEM then ENOMEM_ERRNO else EINVAL_ERRNO
  }

  /** The connection. writePlan and readPlan say how the next calls turn out: a positive number is the most that the
      call transfers, 0 means nothing, and a negative one a failure with that errno, negated. After those, a
      call transfers as much as possible. */
  class Io {
    var sent: seq<Byte>
    var inbox: seq<Byte>
    var writePlan: seq<int>
    var readPlan: seq<int>

    constructor (inbox: seq<Byte>, writePlan: seq<int>, readPlan: seq<int>)
      ensures sent == [] && this.inbox == inbox && this.writePlan == writePlan && this.readPlan == readPlan
    {
      sent, this.inbox, this.writePlan, this.readPlan := [], inbox, writePlan, readPlan;
    }

    /** No call fails while there is something to transfer. */
    ghost predicate Reliable()
      reads this
    {
      (forall i | 0 <= i < |writePlan| :: writePlan[i] >= 0) && forall i | 0 <= i < |readPlan| :: readPlan[i] > 0
    }

    method Write(data: seq<Byte>) returns (nwritten: int, errno: int)
      requires data != []
      modifies this`sent, this`writePlan
      ensures nwritten <= |data| && (nwritten < 0 ==> errno > 0 && sent == old(sent) && !old(Reliable()))
      ensures nwritten >= 0 ==> sent == old(sent) + data[..nwritten]
      ensures nwritten == 0 ==> |writePlan| < |old(writePlan)|
      ensures |writePlan| <= |old(writePlan)| && (old(Reliable()) ==> Reliable())
    {
      if writePlan == [] {
        sent := sent + data;
        assert data[..|data|] == data;
        return |data|, 0;
      }
      var w := writePlan[0];
      writePlan := writePlan[1..];
      if w < 0 {
        return -1, -w;
      }
      nwritten, errno := if w < |data| then w else |data|, 0;
      sent := sent + data[..nwritten];
    }

    /** Reads at most len bytes to a place in dst; nread is 0 at the end of the data, and if len is 0. */
    method Read(dst: array<Byte>, at: nat, len: nat) returns (nread: int, errno: int)
      requires at + len <= dst.Length
      modifies this`inbox, this`readPlan, dst
      ensures nread <= len && (nread < 0 ==> errno > 0)
      ensures nread <= 0 ==> inbox == old(inbox) && dst[..] == old(dst[..])
      ensures nread <= 0 && old(Reliable()) ==> nread == 0 && (len == 0 || old(inbox) == [])
      ensures nread > 0 ==> old(inbox) == dst[at..at + nread] + inbox
                            && dst[..at] == old(dst[..at]) && dst[at + nread..] == old(dst[at + nread..])
      ensures old(Reliable()) ==> Reliable()
    {
      var most := if len < |inbox| then len else |inbox|;
      if readPlan == [] {
        nread := most;
      } else {
        var r := readPlan[0];
        readPlan := readPlan[1..];
        if r < 0 {
          return -1, -r;
        }
        nread := if r < most then r else most;
      }
      forall i | 0 <= i < nread {
        dst[at + i] := inbox[i];
      }
      assert old(inbox)[..nread] == dst[at..at + nread] && inbox[0..] == inbox;
      inbox := inbox[nread..];
      errno := 0;
    }
  }

  class Wire {
    const version: int
    const io: Io
    /** buffer.start is index 0 and buffer.size the length. */
    const buffer: array<Byte>
    var curr: nat
    var end: nat
    var direction: Direction
    var status: int
    var allocatedMemory: int

    /** sanei_w_init. */
    constructor (version: int, io: Io)
      ensures Valid() && fresh(buffer) && this.version == version && this.io == io
      ensures buffer.Length == 8192 && direction == ENCODE && status == 0 && allocatedMemory == 0
      ensures Emitted() == io.sent
    {
      this.version, this.io := version, io;
      status, direction := 0, ENCODE;
      buffer := new Byte[8192];
      curr, end := 0, 8192;
      allocatedMemory := 0;
    }

    predicate Valid()
      reads this
    {
      4 <= buffer.Length && curr <= end <= buffer.Length
    }

    /** When sending: what has been sent and what waits in the buffer. */
    ghost function Emitted(): seq<Byte>
      reads this, io, buffer
      requires Valid()
    {
      io.sent + buffer[..curr]
    }

    /** When receiving: what waits in the buffer and what is still to be read. */
    ghost function Pending(): seq<Byte>
      reads this, io, buffer
      requires Valid()
    {
      buffer[curr..end] + io.inbox
    }

    /** After a failed write, what has been sent of the waiting bytes is still in the buffer. */
    ghost predicate Repeats(sent: seq<Byte>, waiting: seq<Byte>)
      reads this`curr, io`sent, buffer
    {
      curr <= |waiting| && curr <= buffer.Length && buffer[..curr] == waiting[..curr]
      && io.sent == sent + waiting[..curr]
    }

    /** Sends the first nbytes bytes of the buffer, in as many writes as it takes. */
    method SendBuffer(nbytes: nat)
      requires Valid() && status == 0 && nbytes <= end
      modifies this`curr, this`end, this`status, io`sent, io`writePlan
      ensures Valid()
      ensures if status == 0 then io.sent == old(io.sent) + buffer[..nbytes] && curr == 0 && end == buffer.Length
              else io.sent == old(io.sent) + buffer[..curr] && curr <= nbytes && !old(io.Reliable())
      ensures old(io.Reliable()) ==> io.Reliable()
    {
      curr := 0;
      while curr < nbytes
        invariant curr <= nbytes <= end <= buffer.Length && status == 0
        invariant io.sent == old(io.sent) + buffer[..curr]
        invariant old(io.Reliable()) ==> io.Reliable()
        decreases nbytes - curr, |io.writePlan|
      {
        var nwritten, errno := io.Write(buffer[curr..nbytes]);
        if nwritten < 0 {
          status := errno;
          return;
        }
        assert buffer[..curr] + buffer[curr..nbytes][..nwritten] == buffer[..curr + nwritten];
        curr := curr + nwritten;
      }
      curr := 0;
      end := buffer.Length;
    }

    /** Moves the bytes left over to the front of the buffer. */
    method MoveToFront()
      requires Valid()
      modifies this`curr, this`end, buffer
      ensures Valid() && curr == 0 && end == old(end - curr) && buffer[..end] == old(buffer[curr..end])
    {
      var leftOver := end - curr;
      forall i | 0 <= i < leftOver {
        buffer[i] := buffer[curr + i];
      }
      curr, end := 0, leftOver;
    }

    /** One read, to the end of the data in the buffer. */
    method ReadMore() returns (nread: int)
      requires Valid() && status == 0
      modifies this`end, this`status, io`inbox, io`readPlan, buffer
      ensures Valid() && Pending() == old(Pending())
      ensures if nread > 0 then status == 0 && end == old(end) + nread else status != 0 && end == old(end)
      ensures nread <= 0 && old(io.Reliable()) ==>
                status == EINVAL_ERRNO && (io.inbox == [] || end == buffer.Length)
      ensures old(io.Reliable()) ==> io.Reliable()
    {
      ghost var before := buffer[..end];
      var errno;
      nread, errno := io.Read(buffer, end, buffer.Length - end);
      assert buffer[..end] == before;
      if nread <= 0 {
        status := if nread == 0 then EINVAL_ERRNO else errno;
        assert buffer[curr..end] == before[curr..];
        return;
      }
      end := end + nread;
      assert buffer[curr..end] == before[curr..] + buffer[end - nread..end];
    }

    /** Reads until there are howmuch bytes in the buffer. */
    method FillBuffer(howmuch: nat)
      requires Valid() && status == 0 && end - curr < howmuch
      modifies this`curr, this`end, this`status, io`inbox, io`readPlan, buffer
      ensures Valid() && Pending() == old(Pending())
      ensures status == 0 ==> end - curr >= howmuch
      ensures status != 0 && old(io.Reliable()) ==>
                status == EINVAL_ERRNO && (|Pending()| < howmuch || howmuch > buffer.Length)
      ensures old(io.Reliable()) ==> io.Reliable()
    {
      MoveToFront();
      while true
        invariant Valid() && curr == 0 && status == 0 && end < howmuch
        invariant Pending() == old(Pending())
        invariant old(io.Reliable()) ==> io.Reliable()
        decreases buffer.Length - end
      {
        var nread := ReadMore();
        if nread <= 0 || end >= howmuch {
          return;
        }
      }
    }

    /** sanei_w_space: whatever the reads and writes do, nothing is lost, doubled or reordered; and if the
        status is still 0, there are howmuch bytes of space, or of data, unless the buffer is smaller. */
    method Space(howmuch: nat)
      requires Valid()
      modifies this`curr, this`end, this`status, io, buffer
      ensures Valid()
      ensures status == 0 && direction != FREE && howmuch <= buffer.Length ==> end - curr >= howmuch
      ensures old(status) != 0 || direction == FREE ==>
                status == old(status) && curr == old(curr) && end == old(end)
                && unchanged(buffer) && unchanged(io)
      ensures direction == ENCODE && old(status) == 0 ==>
                if status == 0 then
                  Emitted() == old(Emitted()) && (old(curr) + howmuch > old(end) ==> curr == 0 && end == buffer.Length)
                else Repeats(old(io.sent), old(buffer[..curr])) && io.sent <= old(Emitted()) && !old(io.Reliable())
      ensures direction == DECODE ==> Pending() == old(Pending())
      ensures direction == DECODE && old(status) == 0 && old(io.Reliable()) && howmuch <= buffer.Length ==>
                if |Pending()| >= howmuch then status == 0 else status == EINVAL_ERRNO
      ensures direction != ENCODE ==> io.sent == old(io.sent)
      ensures direction != DECODE ==> io.inbox == old(io.inbox)
      ensures old(io.Reliable()) ==> io.Reliable()
    {
      if status != 0 {
        return;
      }
      if curr + howmuch > end {
        match direction {
          case ENCODE =>
            SendBuffer(curr);
            assert io.sent + buffer[..0] == io.sent;
          case DECODE => FillBuffer(howmuch);
          case FREE =>
        }
      }
    }

    /** Stores bytes in the space that there is, and advances curr. */
    method Put(bytes: seq<Byte>)
      requires Valid() && |bytes| <= end - curr
      modifies this`curr, buffer
      ensures Valid() && Emitted() == old(Emitted()) + bytes
    {
      ghost var before := buffer[..curr];
      forall i | 0 <= i < |bytes| {
        buffer[curr + i] := bytes[i];
      }
      curr := curr + |bytes|;
      assert buffer[..curr] == before + bytes;
    }

    /** Takes bytes from the data that there are. */
    method Take(n: nat) returns (bytes: seq<Byte>)
      requires Valid() && n <= end - curr
      modifies this`curr
      ensures Valid() && |bytes| == n && old(Pending()) == bytes + Pending()
    {
      bytes := buffer[curr..curr + n];
      curr := curr + n;
      assert old(buffer[curr..end]) == bytes + buffer[curr..end];
    }
  }
}
