/** driver/scandifc.cpp: the connection between a client and the scan daemon, with a trace of what passes over it and of
    what the client makes of it. */
module ScanConnection {
  import opened Machine
  import opened ScanReceive

  const BUFFER_SIZE: nat := 4 + 1024 * 16

  /** The header of image data: two bytes with their number, low byte first, and two bytes of flags. */
  const DATA_HEADER: nat := 4

  function DataSize(message: seq<Byte>): nat
    requires |message| >= DATA_HEADER
  {
    message[0] as nat + 256 * message[1] as nat
  }

  /** Image data that fit the buffer of the client and are all there. */
  predicate IsSound(message: seq<Byte>) {
    DATA_HEADER <= |message| <= BUFFER_SIZE && DATA_HEADER + DataSize(message) <= |message|
  }

  type Sound = message: seq<Byte> | IsSound(message) witness [0, 0, 0, 0]

  function ImageData(message: Sound): seq<Byte> {
    message[DATA_HEADER..DATA_HEADER + DataSize(message)]
  }

  /** How a call of receive_message turns out: the response to a scan request, with the source that is used and the
      size of the image; the response to a request to continue; an error status; image data; anything else; nothing
      yet; or the end of the connection. */
  datatype Arrival =
    | ScanResponse(src: nat, sizeBytes: nat)
    | ContinueResponse
    | ErrorStatus(status: LibStatus)
    | ScanData(message: Sound)
    | OtherMessage
    | Nothing
    | Lost

  function DataOf(a: Arrival): seq<Byte> {
    if a.ScanData? then ImageData(a.message) else []
  }

  function First(arrivals: seq<Arrival>): Arrival {
    if arrivals == [] then Lost else arrivals[0]
  }

  function Rest(arrivals: seq<Arrival>): seq<Arrival> {
    if arrivals == [] then [] else arrivals[1..]
  }

  // ---- Commands and their outcomes ----------------------------------------------------------

  datatype SaneStatus = GOOD | CANCELLED | EOF | INVAL | OTHER(of: LibStatus)

  /** libsts2sanests, up to the table of device errors. */
  function SaneOf(s: LibStatus): SaneStatus {
    match s
    case SUCCESS => GOOD
    case CANCELED => CANCELLED
    case END_OF_PAGE => EOF
    case ERROR => INVAL
    case _ => OTHER(s)
  }

  /** GOOD, CANCELLED and EOF each stand for one status, and no other stands for them. */
  lemma StatusesApart(s: LibStatus)
    ensures SaneOf(s) == GOOD <==> s == SUCCESS
    ensures SaneOf(s) == CANCELLED <==> s == CANCELED
    ensures SaneOf(s) == EOF <==> s == END_OF_PAGE
    ensures SaneOf(ERROR) == INVAL
  {
  }

  datatype Command = DoStart | DoRead(maxLength: int) | DoCancel

  /** What a command has led to; Ended(true) is a cancel after which the scan is stopped. */
  datatype Outcome = Began(status: SaneStatus) | Gave(status: SaneStatus, data: seq<Byte>) | Ended(stopped: bool)

  // ---- The trace ----------------------------------------------------------------------------

  datatype Request = Scan | Continue

  /** What happens at the connection: whether the peer has been found there, whether it could be opened, that it has
      been closed, a request, an arrival, and that there will be none; and the end of a command. */
  datatype Step =
    | Looked(found: bool)
    | Opened(ok: bool)
    | Closed
    | Sent(request: Request)
    | Received(arrival: Arrival)
    | Hung
    | Done(command: Command, outcome: Outcome)

  function Before(trace: seq<Step>): seq<Step>
    requires trace != []
  {
    trace[..|trace| - 1]
  }

  function LastOf(trace: seq<Step>): Step
    requires trace != []
  {
    trace[|trace| - 1]
  }

  predicate AwaitsResponse(trace: seq<Step>, request: Request) {
    trace != [] && LastOf(trace) == Sent(request)
  }

  /** There is a socket. */
  function Connected(trace: seq<Step>): bool {
    trace != []
    && match LastOf(trace)
       case Looked(found) => found
       case Opened(_) => true
       case Closed => false
       case _ => Connected(Before(trace))
  }

  /** What the last look has found. */
  function Found(trace: seq<Step>): bool {
    trace != [] && if LastOf(trace).Looked? then LastOf(trace).found else Found(Before(trace))
  }

  /** A page may be continued: the response to the last SCAN had source 2 (the feeder), and there has been neither
      a cancel since nor a REJECT in response to SCANCONTINUE. */
  function Continuable(trace: seq<Step>): bool {
    trace != []
    && var before := Before(trace);
       match LastOf(trace)
       case Done(DoCancel, _) => false
       case Received(a) =>
         if AwaitsResponse(before, Scan) then a.ScanResponse? && a.src == 2
         else Continuable(before) && !(AwaitsResponse(before, Continue) && a == ErrorStatus(REJECT))
       case _ => Continuable(before)
  }

  /** The size of the image in the last response to SCAN. */
  function Size(trace: seq<Step>): nat {
    if trace == [] then 0
    else if AwaitsResponse(Before(trace), Scan) && LastOf(trace).Received? && LastOf(trace).arrival.ScanResponse? then
      LastOf(trace).arrival.sizeBytes
    else Size(Before(trace))
  }

  /** The image data that have arrived since the last start. */
  function Payloads(trace: seq<Step>): seq<Byte> {
    if trace == [] then []
    else
      match LastOf(trace)
      case Done(DoStart, _) => []
      case Received(a) => Payloads(Before(trace)) + DataOf(a)
      case _ => Payloads(Before(trace))
  }

  function Requests(trace: seq<Step>): seq<Request> {
    if trace == [] then []
    else if LastOf(trace).Sent? then Requests(Before(trace)) + [LastOf(trace).request]
    else Requests(Before(trace))
  }

  function Taken(trace: seq<Step>): seq<Arrival> {
    if trace == [] then []
    else if LastOf(trace).Received? then Taken(Before(trace)) + [LastOf(trace).arrival]
    else Taken(Before(trace))
  }

  function Outcomes(trace: seq<Step>): seq<(Command, Outcome)> {
    if trace == [] then []
    else if LastOf(trace).Done? then Outcomes(Before(trace)) + [(LastOf(trace).command, LastOf(trace).outcome)]
    else Outcomes(Before(trace))
  }

  /** The request that the next page calls for. */
  function Due(trace: seq<Step>): Request {
    if Continuable(trace) then Continue else Scan
  }

  // ---- What the commands have done ----------------------------------------------------------

  /** A start since the beginning; a cancel that has stopped the scan since; a read since the start that has given out
      the last data of the image; the data given out since; and whether the connection has been lost in the middle of a
      stack of pages, without a cancel since. */
  datatype Story = Story(started: bool, halted: bool, finished: bool, given: seq<Byte>, stranded: bool)
  {
    /** A scan is going on. */
    predicate GoingOn() {
      started && !halted && !finished
    }
  }

  function StoryOf(trace: seq<Step>): Story {
    if trace == [] then Story(false, false, false, [], false)
    else if LastOf(trace).Done?
      then Told(Before(trace), StoryOf(Before(trace)), LastOf(trace).command, LastOf(trace).outcome)
    else StoryOf(Before(trace))
  }

  /** The story after one more command. */
  function Told(before: seq<Step>, s: Story, command: Command, outcome: Outcome): Story {
    var stranded := s.stranded || (Continuable(before) && !Connected(before));
    match command
    case DoStart => Story(true, false, false, [], stranded)
    case DoRead(_) =>
      var data := if outcome.Gave? then outcome.data else [];
      var ends := outcome.Gave? && outcome.status == GOOD && Waiting(before, s) != []
                  && Size(before) <= |s.given| + |data|;
      Story(s.started, s.halted, s.finished || ends, s.given + data, stranded)
    case DoCancel => Story(s.started, s.halted || (Found(before) && s.GoingOn()), s.finished, s.given, false)
  }

  /** The image data that have arrived and not been given out. */
  function Waiting(trace: seq<Step>, s: Story): seq<Byte> {
    if |s.given| <= |Payloads(trace)| then Payloads(trace)[|s.given|..] else []
  }

  /** The whole image has been given out. */
  predicate Complete(trace: seq<Step>, s: Story) {
    |s.given| > 0 && Size(trace) <= |s.given|
  }

  /** How many of n bytes go to a caller with room for maxLength; a negative number counts as plenty. */
  function Portion(maxLength: int, n: nat): (k: nat)
    ensures k <= n && (0 <= maxLength ==> k <= maxLength) && (k == n || k == maxLength)
  {
    if 0 <= maxLength < n then maxLength else n
  }

  /** The status of a start: that of the response to its last request. */
  function Answer(trace: seq<Step>): SaneStatus {
    if trace == [] || !LastOf(trace).Received? then INVAL
    else
      match LastOf(trace).arrival
      case ScanResponse(_, _) => if AwaitsResponse(Before(trace), Scan) then GOOD else INVAL
      case ContinueResponse => if AwaitsResponse(Before(trace), Continue) then GOOD else INVAL
      case ErrorStatus(s) => SaneOf(s)
      case _ => INVAL
  }

  /** The status of a read that had to wait. */
  function StatusOf(a: Arrival): SaneStatus {
    match a
    case ScanData(_) => GOOD
    case ErrorStatus(s) => SaneOf(s)
    case _ => INVAL
  }

  /** The status of a read that has found the daemon. */
  function ReadStatus(trace: seq<Step>, s: Story): SaneStatus
    requires trace != []
  {
    match LastOf(trace)
    case Received(a) => StatusOf(a)
    case Hung => INVAL
    case _ => if Waiting(trace, s) == [] then EOF else GOOD
  }

  /** The outcome that the trace so far determines. */
  function Result(trace: seq<Step>, command: Command): Outcome
    requires trace != []
  {
    var s := StoryOf(trace);
    match command
    case DoStart => Began(Answer(trace))
    case DoRead(maxLength) =>
      var waiting := Waiting(trace, s);
      if Found(trace) then Gave(ReadStatus(trace, s), waiting[..Portion(maxLength, |waiting|)])
      else Gave(if s.halted then CANCELLED else INVAL, [])
    case DoCancel => Ended(s.halted || (Found(trace) && s.GoingOn()))
  }

  /** The last thing that happened was that the request could not be made or got no answer, or that it was answered. */
  predicate Asked(trace: seq<Step>)
    requires trace != []
  {
    match LastOf(trace)
    case Opened(ok) => !ok
    case Closed => Before(trace) != [] && LastOf(Before(trace)).Sent?
    case Hung => Before(trace) != [] && LastOf(Before(trace)).Sent?
    case Received(_) => Before(trace) != [] && LastOf(Before(trace)).Sent?
    case _ => false
  }

  /** The steps of a command are right: a start ends when it has asked; a read looks for the daemon, and waits for an
      arrival exactly if no data wait and the image is not complete; a cancel looks too, and leaves no socket. */
  predicate Proper(trace: seq<Step>, command: Command)
    requires trace != []
  {
    var s := StoryOf(trace);
    match command
    case DoStart => Asked(trace)
    case DoRead(_) =>
      (match LastOf(trace)
       case Looked(found) => found ==> Waiting(trace, s) != [] || Complete(trace, s)
       case Received(a) => Found(trace) && a != Nothing && Waiting(trace, s) == DataOf(a) && !Complete(trace, s)
       case Hung => Found(trace) && Waiting(trace, s) == [] && !Complete(trace, s)
       case _ => false)
    case DoCancel =>
      LastOf(trace) == Looked(false)
      || (LastOf(trace) == Closed && Before(trace) != [] && LastOf(Before(trace)) == Looked(true))
  }

  /** A read does not give more than the caller has room for. If it succeeds, it fills that room or gives all that
      waits. */
  predicate Measured(trace: seq<Step>, maxLength: int, outcome: Outcome) {
    outcome.Gave?
    && (0 <= maxLength ==> |outcome.data| <= maxLength)
    && (outcome.status == GOOD ==> |outcome.data| == maxLength || outcome.data == Waiting(trace, StoryOf(trace)))
  }

  /** What must hold of one more step. A request is the one that is due. A command has the outcome that the trace so far
      determines; while the scan is stopped, a read gives nothing and says so; and without a connection in the middle of
      a stack, a start fails. */
  predicate Allowed(trace: seq<Step>, step: Step) {
    match step
    case Sent(request) => request == Due(trace)
    case Done(command, outcome) =>
      && trace != [] && outcome == Result(trace, command) && Proper(trace, command)
      && (command.DoRead? ==> Measured(trace, command.maxLength, outcome))
      && (StoryOf(trace).halted && command.DoRead? ==> outcome == Gave(CANCELLED, []))
      && (StoryOf(trace).stranded && command.DoStart? ==> outcome == Began(INVAL))
    case Looked(found) => found ==> Connected(trace)
    case _ => true
  }

  ghost predicate Lawful(trace: seq<Step>) {
    forall i | 0 <= i < |trace| :: Allowed(trace[..i], trace[i])
  }

  // ---- One more step ------------------------------------------------------------------------

  /** What one more step changes. */
  ghost predicate Extends(before: seq<Step>, step: Step, trace: seq<Step>) {
    && trace == before + [step] && trace != [] && LastOf(trace) == step && Before(trace) == before
    && (Lawful(trace) <==> Lawful(before) && Allowed(before, step))
    && Connected(trace) == (match step
                            case Looked(found) => found
                            case Opened(_) => true
                            case Closed => false
                            case _ => Connected(before))
    && Found(trace) == (if step.Looked? then step.found else Found(before))
    && Requests(trace) == (if step.Sent? then Requests(before) + [step.request] else Requests(before))
    && Taken(trace) == (if step.Received? then Taken(before) + [step.arrival] else Taken(before))
    && Outcomes(trace) == (if step.Done? then Outcomes(before) + [(step.command, step.outcome)] else Outcomes(before))
    && StoryOf(trace)
      == (if step.Done? then Told(before, StoryOf(before), step.command, step.outcome) else StoryOf(before))
    && Payloads(trace) == (if step.Done? && step.command.DoStart? then []
                           else if step.Received? then Payloads(before) + DataOf(step.arrival) else Payloads(before))
    && Size(trace) == (if step.Received? && AwaitsResponse(before, Scan) && step.arrival.ScanResponse?
                       then step.arrival.sizeBytes else Size(before))
    && Continuable(trace) == (match step
                              case Done(DoCancel, _) => false
                              case Received(a) =>
                                if AwaitsResponse(before, Scan) then a.ScanResponse? && a.src == 2
                                else Continuable(before)
                                     && !(AwaitsResponse(before, Continue) && a == ErrorStatus(REJECT))
                              case _ => Continuable(before))
  }

  lemma Extend(before: seq<Step>, step: Step)
    ensures Extends(before, step, before + [step])
  {
    hide Allowed, Lawful, Told;
    var trace := before + [step];
    assert LastOf(trace) == step && Before(trace) == before;
    ExtendLaw(before, step);
  }

  lemma ExtendLaw(before: seq<Step>, step: Step)
    ensures Lawful(before + [step]) <==> Lawful(before) && Allowed(before, step)
  {
    hide Allowed;
    var trace := before + [step];
    assert forall i | 0 <= i < |before| :: trace[..i] == before[..i] && trace[i] == before[i];
    assert trace[..|before|] == before;
    if Lawful(trace) {
      assert trace[|before|] == step;
    }
  }

  /** No command has ended. */
  ghost predicate SameCommand(before: seq<Step>, trace: seq<Step>) {
    StoryOf(trace) == StoryOf(before) && Outcomes(trace) == Outcomes(before)
  }

  /** Nothing has arrived, and no command has ended. */
  lemma Quiet(before: seq<Step>, step: Step, trace: seq<Step>)
    requires Extends(before, step, trace) && !step.Done? && !step.Received? && Lawful(before)
    requires (step.Looked? && step.found ==> Connected(before)) && (step.Sent? ==> step.request == Due(before))
    ensures Lawful(trace) && SameCommand(before, trace) && trace != [] && LastOf(trace) == step
    ensures Before(trace) == before
    ensures Continuable(trace) == Continuable(before) && Size(trace) == Size(before)
    ensures Payloads(trace) == Payloads(before) && Taken(trace) == Taken(before)
    ensures Requests(trace) == if step.Sent? then Requests(before) + [step.request] else Requests(before)
    ensures Found(trace) == if step.Looked? then step.found else Found(before)
    ensures Connected(trace) == match step
                                case Looked(found) => found
                                case Opened(_) => true
                                case Closed => false
                                case _ => Connected(before)
  {
    hide Lawful, Requests, Taken, Outcomes, StoryOf, Payloads, Continuable, Connected, Found, Size, Answer, Due;
  }

  /** The response to a request. */
  lemma Responded(before: seq<Step>, request: Request, a: Arrival, trace: seq<Step>)
    requires Extends(before, Received(a), trace) && Lawful(before) && AwaitsResponse(before, request)
    ensures Lawful(trace) && SameCommand(before, trace) && trace != [] && Asked(trace)
    ensures Connected(trace) == Connected(before) && Requests(trace) == Requests(before)
    ensures Continuable(trace) == if request.Scan? then a.ScanResponse? && a.src == 2
                                  else Continuable(before) && a != ErrorStatus(REJECT)
    ensures Size(trace) == if request.Scan? && a.ScanResponse? then a.sizeBytes else Size(before)
    ensures Answer(trace) == match a
                             case ScanResponse(_, _) => if request.Scan? then GOOD else INVAL
                             case ContinueResponse => if request.Scan? then INVAL else GOOD
                             case ErrorStatus(s) => SaneOf(s)
                             case _ => INVAL
  {
    hide Lawful, Requests, Taken, Outcomes, StoryOf, Payloads, Continuable, Connected, Found, Size;
  }

  lemma StartDone(before: seq<Step>, status: SaneStatus, trace: seq<Step>)
    requires Extends(before, Done(DoStart, Began(status)), trace) && Lawful(before) && before != [] && Asked(before)
    requires status == Answer(before) && (StoryOf(before).stranded ==> status == INVAL)
    ensures Lawful(trace) && trace != [] && LastOf(trace) == Done(DoStart, Began(status))
    ensures StoryOf(trace)
              == Story(true, false, false, [], StoryOf(before).stranded || (Continuable(before) && !Connected(before)))
    ensures Connected(trace) == Connected(before) && Continuable(trace) == Continuable(before)
            && Size(trace) == Size(before)
    ensures Payloads(trace) == [] && !Complete(trace, StoryOf(trace)) && Requests(trace) == Requests(before)
    ensures Outcomes(trace) == Outcomes(before) + [(DoStart, Began(status))]
  {
    hide Lawful, Requests, Taken, Outcomes, StoryOf, Payloads, Continuable, Connected, Found, Size, Answer;
  }

  lemma CancelLeavesNone(trace: seq<Step>)
    requires trace != [] && Proper(trace, DoCancel)
    ensures !Connected(trace)
  {
    hide StoryOf;
  }

  lemma CancelDone(before: seq<Step>, stopped: bool, trace: seq<Step>)
    requires Extends(before, Done(DoCancel, Ended(stopped)), trace) && Lawful(before) && before != []
    requires Proper(before, DoCancel)
    requires stopped == (StoryOf(before).halted || (Found(before) && StoryOf(before).GoingOn()))
    ensures Lawful(trace) && trace != [] && LastOf(trace) == Done(DoCancel, Ended(stopped))
    ensures StoryOf(trace) == StoryOf(before).(halted := stopped, stranded := false)
    ensures !Connected(trace) && !Continuable(trace) && Size(trace) == Size(before)
    ensures Payloads(trace) == Payloads(before) && Requests(trace) == Requests(before)
    ensures Complete(trace, StoryOf(trace)) == Complete(before, StoryOf(before))
    ensures Outcomes(trace) == Outcomes(before) + [(DoCancel, Ended(stopped))]
  {
    CancelLeavesNone(before);
    hide Lawful, Requests, Taken, Outcomes, StoryOf, Payloads, Continuable, Connected, Found, Size;
  }

  lemma ReadDone(before: seq<Step>, maxLength: int, out: Outcome, trace: seq<Step>)
    requires Extends(before, Done(DoRead(maxLength), out), trace) && Lawful(before) && before != []
    requires out == Result(before, DoRead(maxLength)) && Proper(before, DoRead(maxLength))
    requires Measured(before, maxLength, out)
    requires StoryOf(before).halted ==> out == Gave(CANCELLED, [])
    ensures Lawful(trace) && trace != [] && LastOf(trace) == Done(DoRead(maxLength), out)
    ensures StoryOf(trace) == Told(before, StoryOf(before), DoRead(maxLength), out)
    ensures Connected(trace) == Connected(before) && Continuable(trace) == Continuable(before)
            && Size(trace) == Size(before)
    ensures Payloads(trace) == Payloads(before) && Requests(trace) == Requests(before)
    ensures Outcomes(trace) == Outcomes(before) + [(DoRead(maxLength), out)]
  {
    hide Lawful, Requests, Taken, Outcomes, StoryOf, Payloads, Continuable, Connected, Found, Size, Result, Proper,
         Told, Measured;
  }

  /** An arrival that is not the response to a request. */
  lemma Arrived(before: seq<Step>, a: Arrival, trace: seq<Step>)
    requires Extends(before, Received(a), trace) && Lawful(before) && before != [] && !LastOf(before).Sent?
    ensures Lawful(trace) && SameCommand(before, trace) && trace != [] && LastOf(trace) == Received(a)
    ensures Connected(trace) == Connected(before) && Continuable(trace) == Continuable(before)
            && Size(trace) == Size(before)
    ensures Payloads(trace) == Payloads(before) + DataOf(a) && Requests(trace) == Requests(before)
    ensures Found(trace) == Found(before)
  {
    hide Lawful, Requests, Taken, Outcomes, StoryOf, Payloads, Continuable, Connected, Found, Size;
  }

  // ---- The connection -----------------------------------------------------------------------

  /** The next call succeeds. */
  predicate Succeeds(turns: seq<bool>) {
    turns != [] && turns[0]
  }

  function Following(turns: seq<bool>): seq<bool> {
    if turns == [] then [] else turns[1..]
  }

  /** The socket, and how the next calls turn out. */
  datatype Line = Line(hasSock: bool, opens: seq<bool>, peeks: seq<bool>, sends: seq<bool>, arrivals: seq<Arrival>)
  {
    /** The daemon is there. */
    predicate Present() {
      hasSock && Succeeds(peeks)
    }

    function AfterLook(): Line {
      this.(hasSock := Present(), peeks := if hasSock then Following(peeks) else peeks)
    }

    function AfterOpen(): Line {
      this.(hasSock := true, opens := Following(opens))
    }

    function AfterSend(): Line {
      this.(sends := Following(sends))
    }

    function AfterReceive(): Line {
      this.(arrivals := Rest(arrivals))
    }

    function AfterClose(): Line {
      this.(hasSock := false)
    }
  }

  /** scandif. The sequences say how the next calls turn out, and after those the daemon is gone. */
  class Scandif {
    var hasSock: bool
    var opens: seq<bool>
    var peeks: seq<bool>
    var sends: seq<bool>
    var arrivals: seq<Arrival>

    ghost var trace: seq<Step>

    constructor (opens: seq<bool>, peeks: seq<bool>, sends: seq<bool>, arrivals: seq<Arrival>)
      ensures trace == [] && LineNow() == Line(false, opens, peeks, sends, arrivals)
    {
      hasSock := false;
      this.opens, this.peeks, this.sends, this.arrivals := opens, peeks, sends, arrivals;
      trace := [];
    }

    ghost function LineNow(): Line
      reads this`hasSock, this`opens, this`peeks, this`sends, this`arrivals
    {
      Line(hasSock, opens, peeks, sends, arrivals)
    }

    /** All that the daemon sends. */
    ghost function AllArrivals(): seq<Arrival>
      reads this`arrivals, this`trace
    {
      Taken(trace) + arrivals
    }

    ghost method Note(step: Step)
      modifies this`trace
      ensures Extends(old(trace), step, trace) && (!step.Received? ==> AllArrivals() == old(AllArrivals()))
    {
      hide Taken;
      Extend(trace, step);
      trace := trace + [step];
    }

    /** A socket is there even if it could not be connected. */
    method Open() returns (ok: bool)
      modifies this`hasSock, this`opens, this`trace
      ensures Extends(old(trace), Opened(ok), trace) && AllArrivals() == old(AllArrivals())
      ensures ok == Succeeds(old(opens)) && LineNow() == old(LineNow()).AfterOpen()
    {
      hide Extends;
      hasSock := true;
      ok := opens != [] && opens[0];
      opens := if opens != [] then opens[1..] else [];
      Note(Opened(ok));
    }

    method Close()
      modifies this`hasSock, this`trace
      ensures Extends(old(trace), Closed, trace) && AllArrivals() == old(AllArrivals())
      ensures LineNow() == old(LineNow()).AfterClose()
    {
      hide Extends;
      hasSock := false;
      Note(Closed);
    }

    /** Looks whether the peer is still there, and closes the socket if it is not. */
    method IsOpen() returns (r: bool)
      modifies this`hasSock, this`peeks, this`trace
      ensures Extends(old(trace), Looked(r), trace) && AllArrivals() == old(AllArrivals())
      ensures r == old(LineNow()).Present() && LineNow() == old(LineNow()).AfterLook()
    {
      hide Extends;
      r := false;
      if hasSock {
        r := peeks != [] && peeks[0];
        peeks := if peeks != [] then peeks[1..] else [];
      }
      hasSock := r;
      Note(Looked(r));
    }

    /** send_message, for nothing but the request that is due. */
    method Send(request: Request) returns (ok: bool)
      requires request == Due(trace)
      modifies this`sends, this`trace
      ensures Extends(old(trace), Sent(request), trace) && AllArrivals() == old(AllArrivals())
      ensures ok == (hasSock && Succeeds(old(sends))) && LineNow() == old(LineNow()).AfterSend()
    {
      hide Extends;
      ok := hasSock && sends != [] && sends[0];
      sends := if sends != [] then sends[1..] else [];
      Note(Sent(request));
    }

    /** receive_message. */
    method Receive() returns (a: Arrival)
      modifies this`arrivals, this`trace
      ensures a == First(old(arrivals)) && LineNow() == old(LineNow()).AfterReceive()
      ensures Extends(old(trace), if old(arrivals) == [] then Hung else Received(a), trace)
      ensures AllArrivals() == old(AllArrivals())
    {
      hide Lawful, Connected, Found, Requests, Taken, Outcomes, StoryOf, Payloads, Size, Continuable;
      a := Lost;
      if arrivals != [] {
        a := arrivals[0];
        arrivals := arrivals[1..];
        Note(Received(a));
        assert Taken(old(trace)) + [a] + arrivals == Taken(old(trace)) + old(arrivals);
      } else {
        Note(Hung);
      }
    }
  }

  // ---- What a lawful trace says of later commands -------------------------------------------

  /** No command of a kind in a stretch of a trace. */
  ghost predicate Without(trace: seq<Step>, from: nat, to: nat, command: Command) {
    forall i | from <= i < to && i < |trace| && trace[i].Done? :: trace[i].command != command
  }

  lemma {:induction false} StaysHalted(trace: seq<Step>, from: nat, to: nat)
    requires from <= to <= |trace| && StoryOf(trace[..from]).halted && Without(trace, from, to, DoStart)
    ensures StoryOf(trace[..to]).halted
  {
    if from < to {
      StaysHalted(trace, from, to - 1);
      assert Before(trace[..to]) == trace[..to - 1] && LastOf(trace[..to]) == trace[to - 1];
    }
  }

  /** After a cancel that finds the daemon while a scan is going on, every read up to the next start reports CANCELLED
      and gives nothing. */
  lemma CancelStopsReads(trace: seq<Step>, i: nat, j: nat)
    requires Lawful(trace) && i < j < |trace| && trace[i].Done? && trace[i].command.DoCancel?
    requires StoryOf(trace[..i]).GoingOn() && Found(trace[..i])
    requires trace[j].Done? && trace[j].command.DoRead? && Without(trace, i + 1, j, DoStart)
    ensures trace[i].outcome == Ended(true) && trace[j].outcome == Gave(CANCELLED, [])
  {
    assert Allowed(trace[..i], trace[i]) && Allowed(trace[..j], trace[j]);
    assert Before(trace[..i + 1]) == trace[..i] && LastOf(trace[..i + 1]) == trace[i];
    StaysHalted(trace, i + 1, j);
  }

  lemma {:induction false} StaysStranded(trace: seq<Step>, from: nat, to: nat)
    requires from <= to <= |trace| && StoryOf(trace[..from]).stranded && Without(trace, from, to, DoCancel)
    ensures StoryOf(trace[..to]).stranded
  {
    if from < to {
      StaysStranded(trace, from, to - 1);
      assert Before(trace[..to]) == trace[..to - 1] && LastOf(trace[..to]) == trace[to - 1];
    }
  }

  /** If a command ends without a socket although a page may be continued, every start up to the next cancel fails. */
  lemma LossStopsStarts(trace: seq<Step>, i: nat, j: nat)
    requires Lawful(trace) && i < j < |trace| && trace[i].Done? && !trace[i].command.DoCancel?
    requires Continuable(trace[..i]) && !Connected(trace[..i])
    requires trace[j].Done? && trace[j].command.DoStart? && Without(trace, i + 1, j, DoCancel)
    ensures trace[j].outcome == Began(INVAL)
  {
    assert Allowed(trace[..j], trace[j]);
    assert Before(trace[..i + 1]) == trace[..i] && LastOf(trace[..i + 1]) == trace[i];
    StaysStranded(trace, i + 1, j);
  }

  /** In no session does a read give more than the caller has room for; and the data that wait are given in order: a
      read that succeeds fills that room or leaves nothing. */
  lemma ReadsFit(trace: seq<Step>, i: nat)
    requires Lawful(trace) && i < |trace| && trace[i].Done? && trace[i].command.DoRead?
    ensures trace[i].outcome.Gave?
    ensures var data, waiting := trace[i].outcome.data, Waiting(trace[..i], StoryOf(trace[..i]));
            && (0 <= trace[i].command.maxLength ==> |data| <= trace[i].command.maxLength)
            && data <= waiting
            && (trace[i].outcome.status == GOOD ==> |data| == trace[i].command.maxLength || data == waiting)
  {
    hide StoryOf, Waiting;
    assert Allowed(trace[..i], trace[i]);
  }
}
