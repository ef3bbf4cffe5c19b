/** driver/devel/scandifdef.h: from the bytes on the socket to the arrivals that the device and the page loop see. */
module ScanFeed {
  import opened Machine
  import opened ScanReceive
  import ScanConnection
  import ScanDevice
  import ScanSession
  import ScanPages

  // ---- One call of scandif_recv after the other ---------------------------------------------

  /** A message with its kind; no message yet; or a status with which receiving has failed. */
  datatype Heard = Whole(kind: Byte, data: seq<Byte>) | Silence | Failure(status: LibStatus)

  function HeardOf(r: Got): Heard
    requires |r.header| == HEADER
  {
    if r.status == SUCCESS then Whole(r.header[1], r.data) else if r.status == NODATA then Silence
    else Failure(r.status)
  }

  /** A call uses up at least one turn. */
  lemma ReceiveShortens(plan: seq<Turn>, inbox: seq<Byte>, h: seq<Byte>)
    requires |h| == HEADER && plan != []
    ensures |Receive(plan, inbox, h).plan| < |plan|
  {
    HeaderShortens(plan, |inbox|, SCANDIF_RECV_RETRY);
  }

  lemma HeaderShortens(plan: seq<Turn>, available: nat, tries: nat)
    requires plan != [] && tries > 0
    ensures |HeaderTurns(plan, available, tries).plan| < |plan|
  {
  }

  /** What a client hears that calls again and again, up to the end of the plan. h is left in the header from before. */
  function Feed(plan: seq<Turn>, inbox: seq<Byte>, h: seq<Byte>): seq<Heard>
    requires |h| == HEADER
    decreases |plan|
  {
    if plan == [] then []
    else
      ReceiveShortens(plan, inbox, h);
      var r := Receive(plan, inbox, h);
      [HeardOf(r)] + Feed(r.plan, r.rest, r.header)
  }

  /** Without the calls that have timed out. */
  function Spoken(heard: seq<Heard>): seq<Heard> {
    if heard == [] then []
    else if heard[0].Silence? then Spoken(heard[1..])
    else [heard[0]] + Spoken(heard[1..])
  }

  function Messages(ms: seq<Message>): seq<Heard> {
    seq(|ms|, i requires 0 <= i < |ms| => Whole(ms[i].kind, ms[i].data))
  }

  predicate AllValid(ms: seq<Message>) {
    forall i | 0 <= i < |ms| :: ms[i].Valid()
  }

  /** The next message is received whole, as ReceivedExactly says. */
  predicate Delivers(plan: seq<Turn>, m: Message) {
    var i := FirstTurn(plan, SCANDIF_RECV_RETRY);
    i < SCANDIF_RECV_RETRY && i < |plan| && plan[i].Arrives? && plan[i].most >= HEADER
    && |m.data| <= Capacity(plan[i + 1..], SCANDIF_RECV_RETRY)
  }

  /** All messages are, with timeouts between them. */
  ghost predicate DeliversAll(plan: seq<Turn>, ms: seq<Message>, h: seq<Byte>)
    requires |h| == HEADER && AllValid(ms)
    decreases |plan|
  {
    ms == []
    || (plan != []
        && (ReceiveShortens(plan, Stream(ms), h);
            var r := Receive(plan, Stream(ms), h);
            (r.status == NODATA && DeliversAll(r.plan, ms, r.header))
            || (Delivers(plan, ms[0]) && DeliversAll(r.plan, ms[1..], r.header))))
  }

  /** Then they are heard in order, each as it was sent. */
  lemma {:induction false} MessagesAreHeard(plan: seq<Turn>, ms: seq<Message>, h: seq<Byte>)
    requires |h| == HEADER && AllValid(ms) && DeliversAll(plan, ms, h)
    ensures Messages(ms) <= Spoken(Feed(plan, Stream(ms), h))
    decreases |plan|
  {
    hide Receive, Delivers, Stream, Feed, Spoken, DeliversAll, Messages;
    MessagesParts(ms);
    if ms != [] {
      var r := Receive(plan, Stream(ms), h);
      FeedParts(plan, ms, h);
      ReceiveDelivers(plan, Stream(ms), h);
      var further := Feed(r.plan, r.rest, r.header);
      SpokenParts(HeardOf(r), further);
      if r.status == NODATA && DeliversAll(r.plan, ms, r.header) {
        MessagesAreHeard(r.plan, ms, r.header);
      } else {
        NextDelivered(plan, ms, h);
        MessagesAreHeard(r.plan, ms[1..], r.header);
      }
    }
  }

  lemma MessagesParts(ms: seq<Message>)
    ensures Messages(ms) == if ms == [] then [] else [Whole(ms[0].kind, ms[0].data)] + Messages(ms[1..])
  {
  }

  /** The first call of several. */
  lemma FeedParts(plan: seq<Turn>, ms: seq<Message>, h: seq<Byte>)
    requires |h| == HEADER && AllValid(ms) && ms != [] && DeliversAll(plan, ms, h)
    ensures var r := Receive(plan, Stream(ms), h);
            && plan != [] && |r.plan| < |plan|
            && Feed(plan, Stream(ms), h) == [HeardOf(r)] + Feed(r.plan, r.rest, r.header)
            && ((r.status == NODATA && DeliversAll(r.plan, ms, r.header))
                || (Delivers(plan, ms[0]) && DeliversAll(r.plan, ms[1..], r.header)))
  {
    hide Receive, Delivers, Stream;
    ReceiveShortens(plan, Stream(ms), h);
  }

  lemma SpokenParts(x: Heard, heard: seq<Heard>)
    ensures Spoken([x] + heard) == if x.Silence? then Spoken(heard) else [x] + Spoken(heard)
  {
    assert ([x] + heard)[1..] == heard;
  }

  lemma NextDelivered(plan: seq<Turn>, ms: seq<Message>, h: seq<Byte>)
    requires |h| == HEADER && ms != [] && AllValid(ms) && Delivers(plan, ms[0])
    ensures var r := Receive(plan, Stream(ms), h);
            HeardOf(r) == Whole(ms[0].kind, ms[0].data) && r.rest == Stream(ms[1..])
  {
    hide Receive, Stream, FirstTurn, Capacity;
    ReceivedExactly(ms, plan, h);
  }

  // ---- What a client makes of a message -----------------------------------------------------

  const SCAN_RESPONSE: Byte := 0x85
  const CONTINUE_RESPONSE: Byte := 0x87
  const ERROR_INDICATION: Byte := 0x7f
  const SCANDATA: Byte := 6

  /** uint32_t, low byte first. */
  function Word32(b: seq<Byte>, i: nat): nat
    requires i + 4 <= |b|
  {
    b[i] as nat + 0x100 * b[i + 1] as nat + 0x1_0000 * b[i + 2] as nat + 0x100_0000 * b[i + 3] as nat
  }

  /** The enumeration LibStatus, for the values that matter. */
  function StatusOfCode(code: int): LibStatus {
    match code
    case 0 => SUCCESS
    case 50 => CANCELED
    case 51 => END_OF_PAGE
    case 54 => NODATA
    case 57 => DISCONNECTED
    case -99 => ERROR
    case -87 => REJECT
    case -85 => IOERROR
    case -76 => FIOERROR
    case _ => Other(code)
  }

  function ErrorCode(data: seq<Byte>): LibStatus
    requires |data| >= 4
  {
    StatusOfCode(Signed(Word32(data, 0)))
  }

  /** src, in the bits 1 to 3 of the first byte. */
  function SourceBits(data: seq<Byte>): nat
    requires data != []
  {
    data[0] as nat / 2 % 8
  }

  /** For the device. Structures have their full size. */
  function ArrivalOf(x: Heard): ScanConnection.Arrival {
    match x
    case Silence => ScanConnection.Nothing
    case Failure(_) => ScanConnection.Lost
    case Whole(kind, data) =>
      if kind == SCAN_RESPONSE && |data| == 16 then ScanConnection.ScanResponse(SourceBits(data), Word32(data, 12))
      else if kind == CONTINUE_RESPONSE then ScanConnection.ContinueResponse
      else if kind == ERROR_INDICATION && |data| == 4 then ScanConnection.ErrorStatus(ErrorCode(data))
      else if kind % 64 == SCANDATA && ScanConnection.IsSound(data) then ScanConnection.ScanData(data)
      else ScanConnection.OtherMessage
  }

  /** For the page loop, which looks only at the lower six bits of the kind; bit 0 and bit 1 of the third byte of image
      data are the marks of the last one. */
  function ReplyOf(x: Heard): ScanPages.Arrival {
    match x
    case Silence => ScanPages.Missed(NODATA)
    case Failure(s) => ScanPages.Missed(if s == SUCCESS then IOERROR else s)
    case Whole(kind, data) =>
      if kind % 64 == SCAN_RESPONSE % 64 && |data| == 16 then ScanPages.Arrived(ScanPages.ScanReply(SourceBits(data)))
      else if kind % 64 == CONTINUE_RESPONSE % 64 then ScanPages.Arrived(ScanPages.ContinueReply)
      else if kind % 64 == ERROR_INDICATION % 64 && |data| == 4 then
        ScanPages.Arrived(ScanPages.ErrorReply(ErrorCode(data)))
      else if kind % 64 == SCANDATA && ScanConnection.IsSound(data) then
        ScanPages.Arrived(ScanPages.DataReply(ScanConnection.ImageData(data), data[2] % 2 == 1, data[2] / 2 % 2 == 1))
      else ScanPages.Arrived(ScanPages.OtherReply)
  }

  /** A message with 300 bytes of data says so with the bytes 44 and 1, and is read so. */
  lemma LengthOfData(data: seq<Byte>)
    requires |data| == 300
    ensures Message(255, 6, data).Bytes() == [255, 6, 44, 1] + data && DataLength([255, 6, 44, 1]) == 300
  {
  }

  /** A response to SCAN: a bit, the source in three bits, other bits and words that do not matter, and the size. */
  lemma ResponseIsRead(first: bool, src: nat, other: nat, between: seq<Byte>, n: nat)
    requires src < 8 && other < 16 && |between| == 11 && n < TWO_TO_32
    ensures var data := [((if first then 1 else 0) + 2 * src + 16 * other) as Byte] + between
                        + [(n % 256) as Byte, (n / 256 % 256) as Byte, (n / 0x1_0000 % 256) as Byte,
                           (n / 0x100_0000) as Byte];
            && ArrivalOf(Whole(0x85, data)) == ScanConnection.ScanResponse(src, n)
            && ReplyOf(Whole(0x85, data)) == ScanPages.Arrived(ScanPages.ScanReply(src))
  {
    var a, b, c, d := n % 256, n / 256 % 256, n / 0x1_0000 % 256, n / 0x100_0000;
    Bytes32(n);
    var bit := if first then 1 else 0;
    assert (bit + 2 * src + 16 * other) / 2 == src + 8 * other;
    var tail := [a as Byte, b as Byte, c as Byte, d as Byte];
    var data := [(bit + 2 * src + 16 * other) as Byte] + between + tail;
    assert data[0] as nat == bit + 2 * src + 16 * other;
    assert data[12..] == tail;
    assert data[12] == tail[0] && data[13] == tail[1] && data[14] == tail[2] && data[15] == tail[3];
  }

  lemma Bytes32(n: nat)
    requires n < TWO_TO_32
    ensures n / 0x100_0000 < 256
    ensures n == n % 256 + 0x100 * (n / 256 % 256) + 0x1_0000 * (n / 0x1_0000 % 256) + 0x100_0000 * (n / 0x100_0000)
  {
    assert n / 0x1_0000 == n / 256 / 256 && n / 0x100_0000 == n / 256 / 256 / 256;
  }

  /** Image data with their marks: bit 0 for the last of a page, bit 1 for another document in the feeder. */
  lemma DataIsRead(data: seq<Byte>, last: bool, hasMore: bool)
    requires |data| <= 16384
    ensures var flags := (if last then 1 else 0) + (if hasMore then 2 else 0);
            var message := [(|data| % 256) as Byte, (|data| / 256) as Byte, flags as Byte, 0] + data;
            && ReplyOf(Whole(6, message)) == ScanPages.Arrived(ScanPages.DataReply(data, last, hasMore))
            && ScanConnection.DataOf(ArrivalOf(Whole(6, message))) == data
  {
    var flags := (if last then 1 else 0) + (if hasMore then 2 else 0);
    var message := [(|data| % 256) as Byte, (|data| / 256) as Byte, flags as Byte, 0] + data;
    assert message[0] as nat + 256 * message[1] as nat == |data| && message[4..4 + |data|] == data;
  }

  function Arrivals(heard: seq<Heard>): seq<ScanConnection.Arrival> {
    seq(|heard|, i requires 0 <= i < |heard| => ArrivalOf(heard[i]))
  }

  function Replies(heard: seq<Heard>): seq<ScanPages.Arrival> {
    seq(|heard|, i requires 0 <= i < |heard| => ReplyOf(heard[i]))
  }

  /** The image data of the arrivals. */
  function DataIn(arrivals: seq<ScanConnection.Arrival>): seq<Byte> {
    if arrivals == [] then []
    else DataIn(arrivals[..|arrivals| - 1]) + ScanConnection.DataOf(arrivals[|arrivals| - 1])
  }

  /** The data since the last start are the last ones of all that have arrived. */
  lemma {:induction false} PayloadsEndTheData(trace: seq<ScanConnection.Step>) returns (earlier: seq<Byte>)
    ensures DataIn(ScanConnection.Taken(trace)) == earlier + ScanConnection.Payloads(trace)
  {
    if trace == [] {
      earlier := [];
    } else {
      var before, step := ScanConnection.Before(trace), ScanConnection.LastOf(trace);
      earlier := PayloadsEndTheData(before);
      match step {
        case Received(a) =>
          var taken := ScanConnection.Taken(before);
          assert (taken + [a])[..|taken|] == taken;
          assert (earlier + ScanConnection.Payloads(before)) + ScanConnection.DataOf(a)
              == earlier + (ScanConnection.Payloads(before) + ScanConnection.DataOf(a));
        case Done(DoStart, _) =>
          earlier := DataIn(ScanConnection.Taken(trace));
        case _ =>
      }
    }
  }

  /** A session over the bytes of a socket, on which the daemon has put messages. What the reads since the last start
      have given, and what waits, are the last of the image data in the messages that have been taken; these are the
      first that are heard on the socket; and if it delivers the daemon's messages, they are heard as they were sent. */
  method SessionOverBytes(plan: seq<Turn>, ms: seq<Message>, h: seq<Byte>, opens: seq<bool>, peeks: seq<bool>,
                          sends: seq<bool>, commands: seq<ScanConnection.Command>)
    returns (outs: seq<ScanConnection.Outcome>, d: ScanDevice.Device, ghost earlier: seq<Byte>)
    requires |h| == HEADER && AllValid(ms)
    ensures d.Valid() && ScanConnection.Lawful(d.scif.trace) && |outs| == |commands|
    ensures ScanConnection.Outcomes(d.scif.trace) == ScanSession.Paired(commands, outs)
    ensures DataIn(ScanConnection.Taken(d.scif.trace)) == earlier + ScanSession.Given(outs) + d.Tail()
    ensures ScanConnection.Taken(d.scif.trace) <= Arrivals(Feed(plan, Stream(ms), h))
    ensures DeliversAll(plan, ms, h) ==> Messages(ms) <= Spoken(Feed(plan, Stream(ms), h))
  {
    hide Feed, Spoken, Messages, DeliversAll, Stream, DataIn, ScanConnection.Payloads, ScanConnection.Taken;
    hide ScanConnection.Lawful, ScanSession.Given, ScanSession.Paired, ScanConnection.Outcomes;
    var heard := Feed(plan, Stream(ms), h);
    var scif := new ScanConnection.Scandif(opens, peeks, sends, Arrivals(heard));
    outs, d := ScanSession.Session(scif, commands);
    earlier := PayloadsEndTheData(scif.trace);
    Regroup(earlier, ScanSession.Given(outs), d.Tail());
    if DeliversAll(plan, ms, h) {
      MessagesAreHeard(plan, ms, h);
    }
  }

  /** The page loop over the bytes of a socket. */
  method ScanOverBytes(plan: seq<Turn>, ms: seq<Message>, h: seq<Byte>, sends: seq<bool>, opens: seq<bool>,
                       writes: seq<bool>, cancels: seq<bool>) returns (s: ScanPages.Scanner, lsts: LibStatus)
    requires |h| == HEADER && AllValid(ms)
    ensures var course := ScanPages.ScanCourse(Replies(Feed(plan, Stream(ms), h)));
            lsts == SUCCESS ==>
              course.Status() == SUCCESS
              && (course.ending.Whole? ==>
                    (ScanPages.Files(s.log) == course.pages
                     <==> ScanPages.NothingLost(ScanPages.Tried(course.parts, writes))))
    ensures DeliversAll(plan, ms, h) ==> Messages(ms) <= Spoken(Feed(plan, Stream(ms), h))
  {
    hide Feed, Spoken, Messages, DeliversAll, Stream, Replies;
    hide ScanPages.ScanCourse, ScanPages.Files, ScanPages.NothingLost, ScanPages.Tried, ScanPages.Disciplined;
    s := new ScanPages.Scanner(sends, Replies(Feed(plan, Stream(ms), h)), opens, writes, cancels);
    lsts := s.Scan();
    if DeliversAll(plan, ms, h) {
      MessagesAreHeard(plan, ms, h);
    }
  }
}
