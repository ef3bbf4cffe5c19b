/** driver/odc_scandif.cpp: scandif_recv, which puts a message together from what recv delivers. */
module ScanReceive {

  import opened Machine

  /** LibStatus, as far as it matters here; Other is any other code, as it travels in an ERRORSTATUS message. */
  datatype LibStatus = SUCCESS | CANCELED | END_OF_PAGE | NODATA | DISCONNECTED | REJECT | IOERROR | FIOERROR | ERROR
                     | Other(code: int)

  const SCANDIF_RECV_RETRY := 4
  const HEADER := 4

  /** How a call of recv turns out: some bytes, at most most of them; EAGAIN; EINTR; another error; or the peer
      has closed the connection. */
  datatype Turn = Arrives(most: nat) | Again | Interrupted | Breaks | Closes

  function Least(a: nat, b: nat): nat {
    if a < b then a else b
  }

  /** A socket: the bytes still to come, and how the next calls turn out. After those the peer has closed. */
  class Socket {
    var inbox: seq<Byte>
    var plan: seq<Turn>

    constructor (inbox: seq<Byte>, plan: seq<Turn>)
      ensures this.inbox == inbox && this.plan == plan
    {
      this.inbox, this.plan := inbox, plan;
    }

    /** recv: rc is the number of bytes, 0 if the connection is closed, -1 for an error. With nothing to
        deliver there is none of the bytes that turn announces: EAGAIN. */
    method Recv(len: nat) returns (rc: int, turn: Turn, data: seq<Byte>)
      requires len > 0
      modifies this
      ensures turn == if old(plan) == [] then Closes else old(plan)[0]
      ensures plan == if old(plan) == [] then [] else old(plan)[1..]
      ensures |data| == if turn.Arrives? then Least(turn.most, Least(len, |old(inbox)|)) else 0
      ensures rc == if turn.Closes? then 0 else if data == [] then -1 else |data|
      ensures old(inbox) == data + inbox
    {
      data := [];
      turn := Closes;
      if plan != [] {
        turn := plan[0];
        plan := plan[1..];
      }
      match turn {
        case Arrives(most) =>
          var n := Least(most, Least(len, |inbox|));
          data := inbox[..n];
          inbox := inbox[n..];
          rc := if n == 0 then -1 else n;
        case Closes =>
          rc := 0;
        case _ =>
          rc := -1;
      }
    }
  }

  /** data_length of a header, in the byte order of the machine: low byte first. */
  function DataLength(h: seq<Byte>): nat
    requires |h| == HEADER
  {
    h[2] as int + 256 * h[3] as int
  }

  // ---- What a plan leads to -----------------------------------------------------------------

  /** The end of a loop over recv: a status, the number of bytes that have arrived, and the rest of the plan. */
  datatype Loop = Loop(status: LibStatus, bytes: nat, plan: seq<Turn>)

  /** Up to tries turns for a header; available is the number of bytes still to come. The first turn that brings
      anything ends the loop. */
  function HeaderTurns(plan: seq<Turn>, available: nat, tries: nat): (l: Loop)
    ensures l.status in {SUCCESS, NODATA, DISCONNECTED, IOERROR} && l.bytes <= Least(HEADER, available)
    ensures l.status == SUCCESS <==> l.bytes > 0
    ensures |l.plan| <= |plan| && (l.status == NODATA && tries > 0 ==> |l.plan| < |plan|)
    decreases tries
  {
    if tries == 0 then Loop(NODATA, 0, plan)
    else if plan == [] then Loop(DISCONNECTED, 0, [])
    else
      match plan[0]
      case Arrives(most) =>
        var n := Least(most, Least(HEADER, available));
        if n == 0 then HeaderTurns(plan[1..], available, tries - 1) else Loop(SUCCESS, n, plan[1..])
      case Again => HeaderTurns(plan[1..], available, tries - 1)
      case Interrupted => HeaderTurns(plan[1..], available, tries - 1)
      case Breaks => Loop(IOERROR, 0, plan[1..])
      case Closes => Loop(DISCONNECTED, 0, plan[1..])
  }

  /** The loop after bytes more. */
  function Further(bytes: nat, l: Loop): Loop {
    l.(bytes := bytes + l.bytes)
  }

  /** Up to tries turns for len bytes. A timeout counts as a turn, and an interruption is an error. */
  function PayloadTurns(plan: seq<Turn>, available: nat, len: nat, tries: nat): (l: Loop)
    requires len > 0
    ensures l.status in {SUCCESS, DISCONNECTED, IOERROR} && l.bytes <= Least(len, available)
    ensures l.status == SUCCESS <==> l.bytes == len
    ensures |l.plan| <= |plan|
    decreases tries
  {
    if tries == 0 then Loop(IOERROR, 0, plan)
    else if plan == [] then Loop(DISCONNECTED, 0, [])
    else
      match plan[0]
      case Arrives(most) =>
        var n := Least(most, Least(len, available));
        if n == len then Loop(SUCCESS, n, plan[1..])
        else
          Further(n, PayloadTurns(plan[1..], available - n, len - n, tries - 1))
      case Again => PayloadTurns(plan[1..], available, len, tries - 1)
      case Interrupted => Loop(IOERROR, 0, plan[1..])
      case Breaks => Loop(IOERROR, 0, plan[1..])
      case Closes => Loop(DISCONNECTED, 0, plan[1..])
  }

  /** What the first tries turns of a plan can bring before one of them fails. */
  function Capacity(plan: seq<Turn>, tries: nat): nat
    decreases tries
  {
    if tries == 0 || plan == [] then 0
    else
      match plan[0]
      case Arrives(most) => most + Capacity(plan[1..], tries - 1)
      case Again => Capacity(plan[1..], tries - 1)
      case _ => 0
  }

  /** A payload arrives exactly if it is there and the turns, no more than four of them, bring all of it. */
  lemma {:induction false} PayloadExactly(plan: seq<Turn>, available: nat, len: nat, tries: nat)
    requires len > 0
    ensures PayloadTurns(plan, available, len, tries).status == SUCCESS <==>
              len <= available && len <= Capacity(plan, tries)
    decreases tries
  {
    if tries > 0 && plan != [] {
      match plan[0]
      case Arrives(most) =>
        var n := Least(most, Least(len, available));
        if n < len {
          PayloadExactly(plan[1..], available - n, len - n, tries - 1);
        }
      case Again => PayloadExactly(plan[1..], available, len, tries - 1);
      case _ =>
    }
  }

  /** The turn that brings the header: the first among four that is neither a timeout nor an interruption. */
  function FirstTurn(plan: seq<Turn>, tries: nat): (i: nat)
    ensures i <= |plan| && i <= tries
    decreases tries
  {
    if tries == 0 || plan == [] then 0
    else if plan[0].Again? || plan[0].Interrupted? || plan[0] == Arrives(0) then 1 + FirstTurn(plan[1..], tries - 1)
    else 0
  }

  /** With bytes to come, that turn alone decides how much of the header arrives. */
  lemma {:induction false} HeaderExactly(plan: seq<Turn>, available: nat, tries: nat)
    requires available > 0
    ensures var i := FirstTurn(plan, tries);
            HeaderTurns(plan, available, tries).bytes
            == if i < tries && i < |plan| && plan[i].Arrives? then Least(plan[i].most, Least(HEADER, available)) else 0
    decreases tries
  {
    if tries > 0 && plan != [] && (plan[0].Again? || plan[0].Interrupted? || plan[0] == Arrives(0)) {
      HeaderExactly(plan[1..], available, tries - 1);
    }
  }

  // ---- The loops ----------------------------------------------------------------------------

  /** The first loop: some bytes of the header, which are taken for all of it; the rest keeps what the caller
      has left there. */
  method ReceiveHeader(sock: Socket, h: seq<Byte>) returns (status: LibStatus, bytes: nat, h2: seq<Byte>)
    requires |h| == HEADER
    modifies sock
    ensures Loop(status, bytes, sock.plan) == HeaderTurns(old(sock.plan), |old(sock.inbox)|, SCANDIF_RECV_RETRY)
    ensures |h2| == HEADER && old(sock.inbox) == h2[..bytes] + sock.inbox && h2[bytes..] == h[bytes..]
  {
    h2, bytes := h, 0;
    var cnt := 0;
    assert [] + sock.inbox == sock.inbox;
    while cnt < SCANDIF_RECV_RETRY
      invariant cnt <= SCANDIF_RECV_RETRY && h2 == h && bytes == 0 && sock.inbox == old(sock.inbox) == [] + sock.inbox
      invariant HeaderTurns(sock.plan, |sock.inbox|, SCANDIF_RECV_RETRY - cnt)
             == HeaderTurns(old(sock.plan), |old(sock.inbox)|, SCANDIF_RECV_RETRY)
    {
      var rc, turn, data := sock.Recv(HEADER);
      assert data == [] ==> old(sock.inbox) == sock.inbox;
      if rc < 0 {
        if turn.Breaks? {
          return IOERROR, bytes, h2;
        }
      } else if rc == 0 {
        return DISCONNECTED, bytes, h2;
      } else {
        h2 := data + h[rc..];
        assert h2[..rc] == data;
        return SUCCESS, rc, h2;
      }
      cnt := cnt + 1;
    }
    status := NODATA;
  }

  /** The second loop: up to four pieces, until len bytes have arrived. */
  method ReceivePayload(sock: Socket, len: nat) returns (status: LibStatus, data: seq<Byte>)
    requires len > 0
    modifies sock
    ensures Loop(status, |data|, sock.plan)
         == PayloadTurns(old(sock.plan), |old(sock.inbox)|, len, SCANDIF_RECV_RETRY)
    ensures old(sock.inbox) == data + sock.inbox
  {
    hide PayloadTurns;
    data := [];
    var cnt := 0;
    ghost var whole := PayloadTurns(sock.plan, |sock.inbox|, len, SCANDIF_RECV_RETRY);
    assert [] + sock.inbox == sock.inbox;
    while cnt < SCANDIF_RECV_RETRY
      invariant cnt <= SCANDIF_RECV_RETRY && |data| < len && old(sock.inbox) == data + sock.inbox
      invariant whole == Further(|data|, PayloadTurns(sock.plan, |sock.inbox|, len - |data|, SCANDIF_RECV_RETRY - cnt))
    {
      ghost var plan, inbox := sock.plan, sock.inbox;
      var rc, turn, piece := sock.Recv(len - |data|);
      PayloadTurn(plan, |inbox|, len - |data|, SCANDIF_RECV_RETRY - cnt);
      Regroup(data, piece, sock.inbox);
      if rc < 0 {
        if turn.Interrupted? || turn.Breaks? {
          return IOERROR, data;
        }
      } else if rc == 0 {
        return DISCONNECTED, data;
      } else {
        data := data + piece;
        if |data| == len {
          return SUCCESS, data;
        }
      }
      cnt := cnt + 1;
    }
    PayloadTurn(sock.plan, |sock.inbox|, len - |data|, 0);
    status := IOERROR;
  }

  /** One turn of the second loop. */
  lemma PayloadTurn(plan: seq<Turn>, available: nat, len: nat, tries: nat)
    requires len > 0
    ensures var turn, rest := if plan == [] then Closes else plan[0], if plan == [] then [] else plan[1..];
            var n := if turn.Arrives? then Least(turn.most, Least(len, available)) else 0;
            PayloadTurns(plan, available, len, tries)
            == if tries == 0 then Loop(IOERROR, 0, plan)
               else if turn.Closes? then Loop(DISCONNECTED, 0, rest)
               else if turn.Interrupted? || turn.Breaks? then Loop(IOERROR, 0, rest)
               else if n == len then Loop(SUCCESS, n, rest)
               else Further(n, PayloadTurns(rest, available - n, len - n, tries - 1))
  {
  }

  lemma Regroup<T>(a: seq<T>, b: seq<T>, c: seq<T>)
    ensures a + (b + c) == (a + b) + c
    ensures b == [] ==> a + b == a
  {
  }

  /** What scandif_recv makes of a plan and the bytes to come, with h left in the header by an earlier message. */
  datatype Got = Got(status: LibStatus, taken: nat, header: seq<Byte>, data: seq<Byte>, rest: seq<Byte>,
                               plan: seq<Turn>)

  function Receive(plan: seq<Turn>, inbox: seq<Byte>, h: seq<Byte>): (r: Got)
    requires |h| == HEADER
    ensures |r.header| == HEADER && r.taken <= HEADER
  {
    var l := HeaderTurns(plan, |inbox|, SCANDIF_RECV_RETRY);
    var h2, rest := inbox[..l.bytes] + h[l.bytes..], inbox[l.bytes..];
    if l.status != SUCCESS || DataLength(h2) == 0 then Got(l.status, l.bytes, h2, [], rest, l.plan)
    else
      var m := PayloadTurns(l.plan, |rest|, DataLength(h2), SCANDIF_RECV_RETRY);
      Got(m.status, l.bytes, h2, rest[..m.bytes], rest[m.bytes..], m.plan)
  }

  /** scandif_recv. */
  method ScandifRecv(sock: Socket, h: seq<Byte>)
    returns (status: LibStatus, h2: seq<Byte>, data: seq<Byte>, ghost taken: nat)
    requires |h| == HEADER
    modifies sock
    ensures Got(status, taken, h2, data, sock.inbox, sock.plan) == Receive(old(sock.plan), old(sock.inbox), h)
  {
    data := [];
    var bytes;
    ghost var inbox := sock.inbox;
    status, bytes, h2 := ReceiveHeader(sock, h);
    taken := bytes;
    assert h2[..bytes] == inbox[..bytes] && h2 == h2[..bytes] + h2[bytes..] && sock.inbox == inbox[bytes..];
    if status == SUCCESS && DataLength(h2) > 0 {
      ghost var rest := sock.inbox;
      status, data := ReceivePayload(sock, DataLength(h2));
      assert data == rest[..|data|] && sock.inbox == rest[|data|..];
    }
  }

  /** SUCCESS delivers the bytes of the header and then exactly data_length bytes, in order; NODATA consumes none. */
  lemma ReceiveDelivers(plan: seq<Turn>, inbox: seq<Byte>, h: seq<Byte>)
    requires |h| == HEADER
    ensures var r := Receive(plan, inbox, h);
            && inbox == r.header[..r.taken] + r.data + r.rest && r.header[r.taken..] == h[r.taken..]
            && (r.status == SUCCESS ==> r.taken > 0 && |r.data| == DataLength(r.header))
            && (r.status == NODATA ==> r.rest == inbox && |r.plan| < |plan|)
            && r.status in {SUCCESS, NODATA, DISCONNECTED, IOERROR}
  {
    hide HeaderTurns, PayloadTurns;
    var l := HeaderTurns(plan, |inbox|, SCANDIF_RECV_RETRY);
    var h2, rest := inbox[..l.bytes] + h[l.bytes..], inbox[l.bytes..];
    Overwritten(inbox, h, l.bytes);
    if l.status == SUCCESS && DataLength(h2) > 0 {
      var m := PayloadTurns(l.plan, |rest|, DataLength(h2), SCANDIF_RECV_RETRY);
      Divided(inbox[..l.bytes], rest, m.bytes);
    }
  }

  lemma Overwritten(inbox: seq<Byte>, h: seq<Byte>, k: nat)
    requires k <= |inbox| && k <= |h|
    ensures var h2 := inbox[..k] + h[k..];
            h2[..k] == inbox[..k] && h2[k..] == h[k..] && inbox == inbox[..k] + inbox[k..]
            && inbox == h2[..k] + [] + inbox[k..]
  {
  }

  lemma Divided(front: seq<Byte>, rest: seq<Byte>, k: nat)
    requires k <= |rest|
    ensures front + rest == front + rest[..k] + rest[k..]
  {
  }

  // ---- Messages -----------------------------------------------------------------------------

  datatype Message = Message(pre: Byte, kind: Byte, data: seq<Byte>)
  {
    predicate Valid() {
      |data| < 0x1_0000
    }

    function Bytes(): seq<Byte>
      requires Valid()
    {
      [pre, kind, (|data| % 256) as Byte, (|data| / 256) as Byte] + data
    }
  }

  function Stream(ms: seq<Message>): seq<Byte>
    requires forall i | 0 <= i < |ms| :: ms[i].Valid()
  {
    if ms == [] then [] else ms[0].Bytes() + Stream(ms[1..])
  }

  /** From a stream of messages the next one is received, and the others are left, exactly if its header arrives
      whole. */
  lemma MessageExactly(ms: seq<Message>, plan: seq<Turn>, h: seq<Byte>)
    requires ms != [] && forall i | 0 <= i < |ms| :: ms[i].Valid()
    requires |h| == HEADER && Receive(plan, Stream(ms), h).status == SUCCESS
    ensures var r := Receive(plan, Stream(ms), h);
            Message(r.header[0], r.header[1], r.data) == ms[0] && r.rest == Stream(ms[1..]) <==> r.taken == HEADER
  {
    hide Receive, HeaderTurns, PayloadTurns, DataLength, Stream, Message.Bytes;
    FirstOf(ms);
    ReceiveDelivers(plan, Stream(ms), h);
    var r := Receive(plan, Stream(ms), h);
    HeaderDecides(ms[0], Stream(ms[1..]), r.header, r.taken, r.data, r.rest);
  }

  lemma FirstOf(ms: seq<Message>)
    requires ms != [] && forall i | 0 <= i < |ms| :: ms[i].Valid()
    ensures Stream(ms) == ms[0].Bytes() + Stream(ms[1..])
  {
    hide Message.Bytes;
  }

  lemma HeaderDecides(m: Message, tail: seq<Byte>, h: seq<Byte>, k: nat, data: seq<Byte>, rest: seq<Byte>)
    requires m.Valid() && |h| == HEADER && k <= HEADER && |data| == DataLength(h)
    requires m.Bytes() + tail == h[..k] + data + rest
    ensures Message(h[0], h[1], data) == m && rest == tail <==> k == HEADER
  {
    assert |m.Bytes() + tail| == HEADER + |m.data| + |tail| && |h[..k] + data + rest| == k + |data| + |rest|;
    if k == HEADER {
      WholeHeader(m, tail, h, data, rest);
    }
  }

  lemma WholeHeader(m: Message, tail: seq<Byte>, h: seq<Byte>, data: seq<Byte>, rest: seq<Byte>)
    requires m.Valid() && |h| == HEADER && |data| == DataLength(h) && m.Bytes() + tail == h[..HEADER] + data + rest
    ensures Message(h[0], h[1], data) == m && rest == tail
  {
    var b := m.Bytes() + tail;
    assert h == b[..4] == m.Bytes()[..4];
    assert DataLength(h) == |m.data|;
    assert b[4..] == m.data + tail == data + rest;
    assert data == (data + rest)[..|m.data|] == m.data;
    assert rest == (data + rest)[|m.data|..] == tail;
  }

  /** When a message is there, it is received exactly if the first turn that brings anything brings the whole header,
      and the next ones, at most four, all its data. */
  lemma ReceivedExactly(ms: seq<Message>, plan: seq<Turn>, h: seq<Byte>)
    requires ms != [] && forall i | 0 <= i < |ms| :: ms[i].Valid()
    requires |h| == HEADER
    ensures var r, i := Receive(plan, Stream(ms), h), FirstTurn(plan, SCANDIF_RECV_RETRY);
            (r.status == SUCCESS && Message(r.header[0], r.header[1], r.data) == ms[0] && r.rest == Stream(ms[1..]))
            <==> i < SCANDIF_RECV_RETRY && i < |plan| && plan[i].Arrives? && plan[i].most >= HEADER
                 && |ms[0].data| <= Capacity(plan[i + 1..], SCANDIF_RECV_RETRY)
  {
    hide Receive, HeaderTurns, Capacity, FirstTurn;
    var inbox := Stream(ms);
    assert inbox == ms[0].Bytes() + Stream(ms[1..]);
    HeaderExactly(plan, |inbox|, SCANDIF_RECV_RETRY);
    HeaderPlan(plan, |inbox|, SCANDIF_RECV_RETRY);
    TakenBytes(plan, inbox, h);
    if HeaderTurns(plan, |inbox|, SCANDIF_RECV_RETRY).bytes == HEADER {
      AfterHeader(ms[0], Stream(ms[1..]), plan, h);
    }
    if Receive(plan, inbox, h).status == SUCCESS {
      MessageExactly(ms, plan, h);
    }
  }

  lemma TakenBytes(plan: seq<Turn>, inbox: seq<Byte>, h: seq<Byte>)
    requires |h| == HEADER
    ensures Receive(plan, inbox, h).taken == HeaderTurns(plan, |inbox|, SCANDIF_RECV_RETRY).bytes
  {
  }

  lemma AfterHeader(m: Message, tail: seq<Byte>, plan: seq<Turn>, h: seq<Byte>)
    requires m.Valid() && |h| == HEADER
    requires HeaderTurns(plan, |m.Bytes() + tail|, SCANDIF_RECV_RETRY).bytes == HEADER
    ensures var inbox := m.Bytes() + tail;
            var l := HeaderTurns(plan, |inbox|, SCANDIF_RECV_RETRY);
            Receive(plan, inbox, h).status == SUCCESS <==> |m.data| <= Capacity(l.plan, SCANDIF_RECV_RETRY)
  {
    hide HeaderTurns, PayloadTurns, Capacity;
    var inbox := m.Bytes() + tail;
    var l := HeaderTurns(plan, |inbox|, SCANDIF_RECV_RETRY);
    var h2 := inbox[..HEADER] + h[HEADER..];
    assert h2 == m.Bytes()[..4];
    assert DataLength(h2) == |m.data|;
    if |m.data| > 0 {
      PayloadExactly(l.plan, |inbox| - HEADER, |m.data|, SCANDIF_RECV_RETRY);
    }
  }

  lemma {:induction false} HeaderPlan(plan: seq<Turn>, available: nat, tries: nat)
    requires available > 0
    ensures var i := FirstTurn(plan, tries);
            HeaderTurns(plan, available, tries).status == SUCCESS ==>
              i < |plan| && HeaderTurns(plan, available, tries).plan == plan[i + 1..]
    decreases tries
  {
    if tries > 0 && plan != [] && (plan[0].Again? || plan[0].Interrupted? || plan[0] == Arrives(0)) {
      HeaderPlan(plan[1..], available, tries - 1);
    }
  }

  /** A header that arrives in two pieces: the message of three bytes is received as an empty one. */
  method SplitHeader() returns (sent: Message, status: LibStatus, h2: seq<Byte>, data: seq<Byte>)
    ensures sent == Message(255, 70, [1, 2, 3])
    ensures status == SUCCESS && |h2| == HEADER && Message(h2[0], h2[1], data) == Message(255, 70, [])
  {
    sent := Message(255, 70, [1, 2, 3]);
    var plan := [Arrives(2), Arrives(5)];
    var sock := new Socket(sent.Bytes(), plan);
    var h: seq<Byte> := [0, 0, 0, 0];
    ghost var taken;
    var inbox := sock.inbox;
    status, h2, data, taken := ScandifRecv(sock, h);
    assert FirstTurn(plan, SCANDIF_RECV_RETRY) == 0;
    HeaderExactly(plan, |inbox|, SCANDIF_RECV_RETRY);
    assert inbox[..2] == [255, 70] && h[2..] == [0, 0];
  }
}
