/** backend/odc_products.cpp: start, read and cancel of a scanner whose data come from the scan daemon, message by
    message. */
module ScanDevice {
  import opened Machine
  import opened ScanReceive
  import opened ScanConnection

  // ---- What a start leads to ----------------------------------------------------------------

  /** The status, the requests that are sent, the connection afterwards, the size of the scan, and use_adf. */
  datatype Begun = Begun(status: SaneStatus, requests: seq<Request>, line: Line, size: nat, adf: bool)

  /** With a SCAN request. */
  function BegunByScan(line: Line, size: nat): (b: Begun)
    ensures b.requests == [] || b.requests == [Scan]
  {
    var looked := line.AfterLook();
    var ready := if line.Present() then looked else looked.AfterOpen();
    if !line.Present() && !Succeeds(line.opens) then Begun(INVAL, [], ready, size, false)
    else
      var asked := ready.AfterSend();
      if !Succeeds(line.sends) then Begun(INVAL, [Scan], asked.AfterClose(), size, false)
      else
        match First(line.arrivals)
        case ScanResponse(src, sizeBytes) => Begun(GOOD, [Scan], asked.AfterReceive(), sizeBytes, src == 2)
        case ErrorStatus(s) => Begun(SaneOf(s), [Scan], asked.AfterReceive(), size, false)
        case _ => Begun(INVAL, [Scan], asked.AfterReceive(), size, false)
  }

  /** With a SCANCONTINUE request, whose rejection leads to a new scan. */
  function BegunByContinue(line: Line, size: nat): (b: Begun)
    ensures b.requests == [Continue] || b.requests == [Continue, Scan]
  {
    var asked := line.AfterSend();
    if !line.hasSock || !Succeeds(line.sends) then Begun(INVAL, [Continue], asked.AfterClose(), size, true)
    else if First(line.arrivals) == ErrorStatus(REJECT) then
      var b := BegunByScan(asked.AfterReceive(), size);
      b.(requests := [Continue] + b.requests)
    else
      match First(line.arrivals)
      case ContinueResponse => Begun(GOOD, [Continue], asked.AfterReceive(), size, true)
      case ErrorStatus(s) => Begun(SaneOf(s), [Continue], asked.AfterReceive(), size, true)
      case _ => Begun(INVAL, [Continue], asked.AfterReceive(), size, true)
  }

  /** A response after which start reports GOOD: the one that was asked for, but also an error status whose code
      is SUCCESS. */
  predicate Accepts(request: Request, a: Arrival) {
    (if request.Scan? then a.ScanResponse? else a.ContinueResponse?) || a == ErrorStatus(SUCCESS)
  }

  /** start reports GOOD exactly if the last request that it sends gets through and is answered with what was asked
      for or with the error status SUCCESS. */
  lemma GoodExactly(line: Line, size: nat)
    ensures BegunByScan(line, size).status == GOOD <==>
              && (line.Present() || Succeeds(line.opens)) && Succeeds(line.sends)
              && Accepts(Scan, First(line.arrivals))
    ensures BegunByContinue(line, size).status == GOOD <==>
              && line.hasSock && Succeeds(line.sends)
              && (Accepts(Continue, First(line.arrivals))
                  || (First(line.arrivals) == ErrorStatus(REJECT)
                      && (line.Present() || Succeeds(line.opens)) && Succeeds(Following(line.sends))
                      && Accepts(Scan, First(Rest(line.arrivals)))))
  {
    assert forall s :: SaneOf(s) == GOOD <==> s == SUCCESS;
  }

  // ---- What a read leads to -----------------------------------------------------------------

  /** read waits for anything but a timeout. */
  function NextOf(arrivals: seq<Arrival>): Arrival {
    if arrivals != [] && arrivals[0] == Nothing then NextOf(arrivals[1..]) else First(arrivals)
  }

  function AfterNext(arrivals: seq<Arrival>): seq<Arrival> {
    if arrivals != [] && arrivals[0] == Nothing then AfterNext(arrivals[1..]) else Rest(arrivals)
  }

  lemma NoAnswer(trace: seq<Step>)
    requires trace != [] && !LastOf(trace).Received?
    ensures Answer(trace) == INVAL
  {
  }

  lemma MoveAlong(delivered: seq<Byte>, waiting: seq<Byte>, k: nat)
    requires k <= |waiting|
    ensures (delivered + waiting[..k]) + waiting[k..] == delivered + waiting
  {
  }

  // ---- The device ---------------------------------------------------------------------------

  class Device {
    const scif: Scandif
    const buffer: array<Byte>
    var bufferOffset: nat
    var bufferReceived: nat
    var trnsDataSize: nat
    var scanDataSize: nat
    var useAdf: bool
    var scanning: bool
    var canceled: bool

    constructor (scif: Scandif)
      requires scif.trace == [] && !scif.hasSock
      ensures Valid() && this.scif == scif && fresh(buffer) && scanDataSize == 0 && !useAdf && !scanning && !canceled
      ensures Tail() == []
    {
      this.scif := scif;
      buffer := new Byte[BUFFER_SIZE];
      bufferOffset, bufferReceived, trnsDataSize, scanDataSize := 0, 0, 0, 0;
      useAdf, scanning, canceled := false, false, false;
    }

    ghost predicate InBounds()
      reads this`bufferOffset, this`bufferReceived
    {
      buffer.Length == BUFFER_SIZE && bufferOffset <= bufferReceived <= BUFFER_SIZE - DATA_HEADER
    }

    /** The image data that wait in the buffer, behind their header. */
    ghost function Tail(): seq<Byte>
      reads this`bufferOffset, this`bufferReceived, buffer
      requires InBounds()
    {
      buffer[DATA_HEADER + bufferOffset..DATA_HEADER + bufferReceived]
    }

    /** What has been done before this command. */
    ghost function Past(): Story
      reads scif`trace
    {
      StoryOf(scif.trace)
    }

    /** Nothing that has arrived is lost, doubled or reordered. */
    ghost predicate Conserves()
      reads this`bufferOffset, this`bufferReceived, this`trnsDataSize, buffer, scif`trace
    {
      InBounds() && Past().given + Tail() == Payloads(scif.trace) && trnsDataSize == |Past().given|
    }

    /** The fields follow the trace of the connection. */
    ghost predicate InSession()
      reads this`useAdf, this`scanDataSize, scif`trace, scif`hasSock
    {
      && Lawful(scif.trace) && useAdf == Continuable(scif.trace) && scanDataSize == Size(scif.trace)
      && scif.hasSock == Connected(scif.trace)
    }

    /** Between two commands: the flags are those of the story so far. */
    ghost predicate Settled()
      reads this`scanning, this`canceled, this`useAdf, scif`trace, scif`hasSock
    {
      && (scif.trace == [] || LastOf(scif.trace).Done?)
      && scanning == Past().GoingOn() && canceled == Past().halted
      && (Past().halted ==> !scif.hasSock)
      && (Past().stranded ==> useAdf && !scif.hasSock)
      && (Complete(scif.trace, Past()) ==> !scanning)
    }

    ghost predicate Valid()
      reads this, buffer, scif`trace, scif`hasSock
    {
      Conserves() && InSession() && Settled()
    }

    /** The first branch of the loop in start: a SCAN request. */
    method StartScan() returns (status: SaneStatus, ghost made: seq<Request>)
      requires InSession() && !useAdf
      modifies this`useAdf, this`scanDataSize
      modifies scif`hasSock, scif`opens, scif`peeks, scif`sends, scif`arrivals, scif`trace
      ensures InSession() && SameCommand(old(scif.trace), scif.trace)
      ensures Requests(scif.trace) == Requests(old(scif.trace)) + made
      ensures scif.AllArrivals() == old(scif.AllArrivals())
      ensures scif.trace != [] && Asked(scif.trace) && status == Answer(scif.trace)
      ensures Begun(status, made, scif.LineNow(), scanDataSize, useAdf)
           == old(BegunByScan(scif.LineNow(), scanDataSize))
    {
      hide Lawful, Requests, Taken, Outcomes, StoryOf, Payloads, Continuable, Connected, Found, Size, Answer;
      hide Extends, Allowed;
      made := [];
      ghost var t := scif.trace;
      assert Requests(t) + made == Requests(t);
      var isOpen := scif.IsOpen();
      Quiet(t, Looked(isOpen), scif.trace);
      t := scif.trace;
      if !isOpen {
        useAdf := false;
        var ok := scif.Open();
        Quiet(t, Opened(ok), scif.trace);
        NoAnswer(scif.trace);
        if !ok {
          return INVAL, made;
        }
        t := scif.trace;
      }
      made := [Scan];
      var ok := scif.Send(Scan);
      Quiet(t, Sent(Scan), scif.trace);
      t := scif.trace;
      if !ok {
        scif.Close();
        Quiet(t, Closed, scif.trace);
        NoAnswer(scif.trace);
        return INVAL, made;
      }
      ghost var hung := scif.arrivals == [];
      var r := scif.Receive();
      if hung {
        Quiet(t, Hung, scif.trace);
        NoAnswer(scif.trace);
      } else {
        Responded(t, Scan, r, scif.trace);
      }
      match r {
        case ScanResponse(src, sizeBytes) =>
          useAdf := src == 2;
          scanDataSize := sizeBytes;
          status := GOOD;
        case ErrorStatus(s) =>
          status := SaneOf(s);
        case _ =>
          status := INVAL;
      }
    }

    /** The second branch: a SCANCONTINUE request, after whose rejection a new scan is tried. */
    method StartContinue() returns (status: SaneStatus, again: bool)
      requires InSession() && useAdf
      modifies this`useAdf, scif`hasSock, scif`sends, scif`arrivals, scif`trace
      ensures InSession() && SameCommand(old(scif.trace), scif.trace)
      ensures Requests(scif.trace) == Requests(old(scif.trace)) + [Continue]
      ensures scif.AllArrivals() == old(scif.AllArrivals()) && scif.trace != [] && useAdf == !again
      ensures again <==>
                old(scif.hasSock) && Succeeds(old(scif.sends)) && First(old(scif.arrivals)) == ErrorStatus(REJECT)
      ensures again ==> scif.LineNow() == old(scif.LineNow()).AfterSend().AfterReceive()
      ensures !again ==>
                && Asked(scif.trace) && status == Answer(scif.trace)
                && Begun(status, [Continue], scif.LineNow(), scanDataSize, useAdf)
                   == old(BegunByContinue(scif.LineNow(), scanDataSize))
    {
      hide Lawful, Requests, Taken, Outcomes, StoryOf, Payloads, Continuable, Connected, Found, Size, Answer;
      hide Extends, Allowed;
      again := false;
      ghost var t := scif.trace;
      var ok := scif.Send(Continue);
      Quiet(t, Sent(Continue), scif.trace);
      t := scif.trace;
      if !ok {
        scif.Close();
        Quiet(t, Closed, scif.trace);
        NoAnswer(scif.trace);
        return INVAL, again;
      }
      ghost var hung := scif.arrivals == [];
      var r := scif.Receive();
      if hung {
        Quiet(t, Hung, scif.trace);
        NoAnswer(scif.trace);
      } else {
        Responded(t, Continue, r, scif.trace);
      }
      match r {
        case ContinueResponse =>
          status := GOOD;
        case ErrorStatus(s) =>
          if s != REJECT {
            status := SaneOf(s);
          } else {
            useAdf := false;
            status, again := GOOD, true;
          }
        case _ =>
          status := INVAL;
      }
    }

    /** What start will lead to. */
    ghost function Beginning(): Begun
      reads this`useAdf, this`scanDataSize, scif
    {
      if useAdf then BegunByContinue(scif.LineNow(), scanDataSize) else BegunByScan(scif.LineNow(), scanDataSize)
    }

    /** The loop in start: asks for the next page if there may be one, and otherwise for a new scan. */
    method AskForPage() returns (status: SaneStatus, ghost made: seq<Request>)
      requires InSession()
      modifies this`useAdf, this`scanDataSize
      modifies scif`hasSock, scif`opens, scif`peeks, scif`sends, scif`arrivals, scif`trace
      ensures InSession() && SameCommand(old(scif.trace), scif.trace)
      ensures Requests(scif.trace) == Requests(old(scif.trace)) + made
      ensures scif.AllArrivals() == old(scif.AllArrivals())
      ensures scif.trace != [] && Asked(scif.trace) && status == Answer(scif.trace)
      ensures Begun(status, made, scif.LineNow(), scanDataSize, useAdf) == old(Beginning())
      ensures old(useAdf && !scif.hasSock) ==> status == INVAL && useAdf && !scif.hasSock
    {
      hide InSession, StoryOf, Requests, Outcomes, Answer, Asked, BegunByScan;
      ghost var adf, line, size, before := useAdf, scif.LineNow(), scanDataSize, Requests(scif.trace);
      made := [];
      assert before + made == before;
      while true
        invariant InSession() && SameCommand(old(scif.trace), scif.trace)
        invariant Requests(scif.trace) == before + made
        invariant scif.AllArrivals() == old(scif.AllArrivals()) && scanDataSize == size
        invariant if made == [] then useAdf == adf && scif.LineNow() == line
                  else
                    && made == [Continue] && adf && !useAdf && scif.LineNow() == line.AfterSend().AfterReceive()
                    && line.hasSock && Succeeds(line.sends) && First(line.arrivals) == ErrorStatus(REJECT)
        decreases useAdf
      {
        if !useAdf {
          ghost var more;
          status, more := StartScan();
          assert (before + made) + more == before + (made + more);
          assert made == [] ==> made + more == more;
          made := made + more;
          return;
        } else {
          var again;
          status, again := StartContinue();
          made := [Continue];
          if !again {
            return;
          }
        }
      }
    }

    /** start: forgets the last page and asks for the next one. */
    method Start() returns (status: SaneStatus, ghost made: seq<Request>)
      requires Valid()
      modifies this, scif
      ensures Valid() && Tail() == [] && Past().given == [] && scanning && !canceled
      ensures Requests(scif.trace) == Requests(old(scif.trace)) + made
      ensures scif.AllArrivals() == old(scif.AllArrivals())
      ensures Outcomes(scif.trace) == Outcomes(old(scif.trace)) + [(DoStart, Began(status))]
      ensures Begun(status, made, scif.LineNow(), scanDataSize, useAdf) == old(Beginning())
    {
      hide Lawful, Requests, Taken, Outcomes, StoryOf, Payloads, Continuable, Connected, Found, Size;
      hide Beginning, Answer, Asked, Extends, Complete;
      trnsDataSize, canceled, scanning, bufferOffset, bufferReceived := 0, false, true, 0, 0;
      status, made := AskForPage();
      ghost var trace := scif.trace;
      scif.Note(Done(DoStart, Began(status)));
      StartDone(trace, status, scif.trace);
      assert Tail() == [];
    }

    /** The part of cancel that is about the connection. */
    method CloseDown()
      requires InSession()
      modifies this`canceled, this`scanning, scif`hasSock, scif`peeks, scif`trace
      ensures InSession() && SameCommand(old(scif.trace), scif.trace)
      ensures scif.trace != [] && Proper(scif.trace, DoCancel)
      ensures Found(scif.trace) == old(scif.LineNow()).Present()
      ensures canceled == (old(canceled) || (old(scif.LineNow()).Present() && old(scanning)))
      ensures scanning == (old(scanning) && !(old(scif.LineNow()).Present() && !old(canceled)))
      ensures scif.LineNow() == old(scif.LineNow()).AfterLook().AfterClose()
      ensures scif.AllArrivals() == old(scif.AllArrivals()) && Requests(scif.trace) == Requests(old(scif.trace))
      ensures Payloads(scif.trace) == Payloads(old(scif.trace)) && Size(scif.trace) == Size(old(scif.trace))
    {
      hide Lawful, Requests, Taken, Outcomes, StoryOf, Payloads, Continuable, Connected, Found, Size, Extends, Allowed;
      ghost var t := scif.trace;
      var isOpen := scif.IsOpen();
      Quiet(t, Looked(isOpen), scif.trace);
      if isOpen {
        if scanning && !canceled {
          canceled := true;
          scanning := false;
        }
        t := scif.trace;
        scif.Close();
        Quiet(t, Closed, scif.trace);
      }
    }

    /** cancel: marks a scan that is going on as canceled, but only if the daemon is still there. */
    method Cancel()
      requires Valid()
      modifies this`canceled, this`scanning, this`useAdf, scif`hasSock, scif`peeks, scif`trace
      ensures Valid() && !useAdf && Tail() == old(Tail()) && Past().given == old(Past()).given
      ensures canceled == (old(canceled) || (old(scif.LineNow()).Present() && old(scanning)))
      ensures scanning == (old(scanning) && !old(scif.LineNow()).Present())
      ensures scif.LineNow() == old(scif.LineNow()).AfterLook().AfterClose()
      ensures scif.AllArrivals() == old(scif.AllArrivals()) && Requests(scif.trace) == Requests(old(scif.trace))
      ensures Outcomes(scif.trace) == Outcomes(old(scif.trace)) + [(DoCancel, Ended(canceled))]
    {
      hide Lawful, Requests, Taken, Outcomes, StoryOf, Payloads, Continuable, Connected, Found, Size, Extends, Allowed;
      CloseDown();
      useAdf := false;
      ghost var t := scif.trace;
      scif.Note(Done(DoCancel, Ended(canceled)));
      CancelDone(t, canceled, scif.trace);
    }

    /** The message overwrites the front of the buffer, and the number of its data is read from there. */
    method Keep(message: Sound)
      requires buffer.Length == BUFFER_SIZE
      modifies this`bufferOffset, this`bufferReceived, buffer
      ensures InBounds() && Tail() == ImageData(message) && bufferOffset == 0
    {
      forall i | 0 <= i < |message| {
        buffer[i] := message[i];
      }
      bufferOffset := 0;
      bufferReceived := buffer[0] as nat + 256 * buffer[1] as nat;
    }

    /** Takes the next arrival, but for timeouts. */
    method AwaitMessage() returns (m: Arrival)
      requires InSession() && scif.trace != [] && !LastOf(scif.trace).Sent?
      modifies scif`arrivals, scif`trace
      ensures InSession() && SameCommand(old(scif.trace), scif.trace) && m == NextOf(old(scif.arrivals)) != Nothing
      ensures scif.LineNow() == old(scif.LineNow()).(arrivals := AfterNext(old(scif.arrivals)))
      ensures scif.AllArrivals() == old(scif.AllArrivals()) && Requests(scif.trace) == Requests(old(scif.trace))
      ensures Found(scif.trace) == Found(old(scif.trace))
              && Payloads(scif.trace) == Payloads(old(scif.trace)) + DataOf(m)
      ensures scif.trace != [] && (LastOf(scif.trace) == Received(m) || (LastOf(scif.trace) == Hung && m == Lost))
    {
      hide Lawful, Requests, Taken, Outcomes, StoryOf, Payloads, Continuable, Connected, Found, Size, Extends, Allowed;
      hide DataOf;
      ghost var before := Payloads(scif.trace);
      NoData(before);
      while true
        invariant NextOf(scif.arrivals) == NextOf(old(scif.arrivals))
        invariant AfterNext(scif.arrivals) == AfterNext(old(scif.arrivals))
        invariant InSession() && SameCommand(old(scif.trace), scif.trace) && scif.trace != []
                  && !LastOf(scif.trace).Sent?
        invariant scif.LineNow() == old(scif.LineNow()).(arrivals := scif.arrivals)
        invariant Payloads(scif.trace) == before && scif.AllArrivals() == old(scif.AllArrivals())
        invariant Requests(scif.trace) == Requests(old(scif.trace)) && Found(scif.trace) == Found(old(scif.trace))
        decreases |scif.arrivals|
      {
        ghost var t, hung := scif.trace, scif.arrivals == [];
        m := scif.Receive();
        if hung {
          Quiet(t, Hung, scif.trace);
        } else {
          Arrived(t, m, scif.trace);
        }
        if m != Nothing {
          break;
        }
      }
    }

    /** Waits for a message. Only image data are kept; anything else ends the read. */
    method ReceiveMore() returns (done: bool, status: SaneStatus)
      requires InSession() && scif.trace != [] && !LastOf(scif.trace).Sent? && InBounds() && Tail() == []
      modifies this`bufferOffset, this`bufferReceived, buffer, scif`arrivals, scif`trace
      ensures InSession() && SameCommand(old(scif.trace), scif.trace) && NextOf(old(scif.arrivals)) != Nothing
      ensures InBounds() && Tail() == DataOf(NextOf(old(scif.arrivals))) && (!done ==> bufferOffset == 0)
      ensures status == StatusOf(NextOf(old(scif.arrivals))) && done == !NextOf(old(scif.arrivals)).ScanData?
      ensures if done then Tail() == [] else status == GOOD
      ensures scif.LineNow() == old(scif.LineNow()).(arrivals := AfterNext(old(scif.arrivals)))
      ensures scif.AllArrivals() == old(scif.AllArrivals()) && Requests(scif.trace) == Requests(old(scif.trace))
      ensures Found(scif.trace) == Found(old(scif.trace))
      ensures Payloads(scif.trace) == Payloads(old(scif.trace)) + DataOf(NextOf(old(scif.arrivals)))
      ensures scif.trace != []
              && (LastOf(scif.trace) == Received(NextOf(old(scif.arrivals)))
                  || (LastOf(scif.trace) == Hung && NextOf(old(scif.arrivals)) == Lost))
    {
      hide Lawful, Requests, Taken, Outcomes, StoryOf, Payloads, Continuable, Connected, Found, Size, Extends, Allowed;
      hide ImageData, IsSound, DataSize, NextOf, AfterNext;
      var m := AwaitMessage();
      done, status := true, INVAL;
      match m {
        case ScanData(message) =>
          Keep(message);
          done, status := false, GOOD;
        case ErrorStatus(e) =>
          status := SaneOf(e);
        case _ =>
      }
    }

    lemma TailLength()
      requires InBounds()
      ensures |Tail()| == bufferReceived - bufferOffset
    {
    }

    method TakeWaiting(cpsz: nat) returns (data: seq<Byte>)
      requires InBounds() && cpsz <= |Tail()|
      modifies this`bufferOffset
      ensures InBounds() && data == old(Tail())[..cpsz] && Tail() == old(Tail())[cpsz..]
    {
      var waiting := buffer[DATA_HEADER + bufferOffset..DATA_HEADER + bufferReceived];
      data := waiting[..cpsz];
      bufferOffset := bufferOffset + cpsz;
    }

    /** Copies waiting data to the caller, as many as it has room for. */
    method CopyOut(maxLength: int) returns (data: seq<Byte>)
      requires InBounds() && Tail() != []
      modifies this`bufferOffset, this`trnsDataSize, this`scanning
      ensures InBounds() && data == old(Tail())[..Portion(maxLength, |old(Tail())|)]
      ensures (0 <= maxLength ==> |data| <= maxLength) && (|data| == maxLength || Tail() == [])
      ensures Tail() == old(Tail())[|data|..] && trnsDataSize == old(trnsDataSize) + |data|
      ensures scanning == (old(scanning) && trnsDataSize < scanDataSize)
    {
      var bufRemain := bufferReceived - bufferOffset;
      assert bufRemain == |Tail()|;
      hide Tail;
      var cpsz := if maxLength < 0 || maxLength > bufRemain then bufRemain else maxLength;
      data := TakeWaiting(cpsz);
      trnsDataSize := trnsDataSize + cpsz;
      if scanDataSize <= trnsDataSize {
        scanning := false;
      }
    }

    /** A read has nothing to give out and waits for a message. */
    ghost predicate Waits()
      reads this, buffer, scif
      requires InBounds()
    {
      scif.LineNow().Present() && Tail() == [] && !(trnsDataSize > 0 && scanDataSize <= trnsDataSize)
    }

    /** What a read has to give out. */
    ghost function ToGive(): seq<Byte>
      reads this, buffer, scif
      requires InBounds()
    {
      if Waits() then DataOf(NextOf(scif.arrivals)) else Tail()
    }

    ghost function StatusToGive(): SaneStatus
      reads this, buffer, scif
      requires InBounds()
    {
      if !scif.LineNow().Present() then if canceled then CANCELLED else INVAL
      else if Waits() then StatusOf(NextOf(scif.arrivals))
      else if Tail() == [] then EOF
      else GOOD
    }

    /** The body of read. */
    method ReadData(maxLength: int) returns (status: SaneStatus, data: seq<Byte>)
      requires InSession() && InBounds() && (scif.trace != [] ==> !LastOf(scif.trace).Sent?)
      modifies this`bufferOffset, this`bufferReceived, this`trnsDataSize, this`scanning, buffer
      modifies scif`arrivals, scif`hasSock, scif`peeks, scif`trace
      ensures InSession() && SameCommand(old(scif.trace), scif.trace) && InBounds()
      ensures status == old(StatusToGive()) && trnsDataSize == old(trnsDataSize) + |data|
      ensures data == (if old(scif.LineNow()).Present() then old(ToGive())[..Portion(maxLength, |old(ToGive())|)]
                       else [])
      ensures Tail() == old(ToGive())[|data|..]
      ensures scif.LineNow() == var l := old(scif.LineNow()).AfterLook();
                                if old(Waits()) then l.(arrivals := AfterNext(l.arrivals)) else l
      ensures scif.AllArrivals() == old(scif.AllArrivals()) && Requests(scif.trace) == Requests(old(scif.trace))
      ensures Found(scif.trace) == old(scif.LineNow()).Present()
      ensures Payloads(scif.trace)
           == if old(Waits()) then Payloads(old(scif.trace)) + old(ToGive()) else Payloads(old(scif.trace))
      ensures scif.trace != []
              && if old(Waits()) then
                   LastOf(scif.trace) == Received(NextOf(old(scif.arrivals)))
                   || (LastOf(scif.trace) == Hung && NextOf(old(scif.arrivals)) == Lost)
                 else LastOf(scif.trace) == Looked(old(scif.LineNow()).Present())
      ensures old(Waits()) ==> NextOf(old(scif.arrivals)) != Nothing
      ensures scanning == (old(scanning) && !(old(scif.LineNow()).Present()
                                              && if old(ToGive()) == [] then !old(Waits())
                                                 else scanDataSize <= trnsDataSize))
    {
      hide Lawful, Requests, Taken, Outcomes, StoryOf, Payloads, Continuable, Connected, Found, Size, Extends, Allowed;
      hide NextOf, AfterNext, StatusOf, DataOf, Tail;
      TailLength();
      data := [];
      ghost var t, tail := scif.trace, Tail();
      assert tail[0..] == tail && tail[..0] == [];
      var isOpen := scif.IsOpen();
      Quiet(t, Looked(isOpen), scif.trace);
      if !isOpen {
        return if canceled then CANCELLED else INVAL, data;
      }
      if bufferReceived > 0 && bufferReceived - bufferOffset > 0 {
      } else {
        if trnsDataSize > 0 && scanDataSize <= trnsDataSize {
          scanning := false;
          return EOF, data;
        }
        var done;
        done, status := ReceiveMore();
        TailLength();
        if done {
          return;
        }
      }
      status := GOOD;
      if bufferReceived > 0 {
        data := CopyOut(maxLength);
      }
    }

    /** read: gives out as many of the waiting bytes as the caller has room for. Only if nothing waits, and the page
        is not complete, it takes the next message. */
    method Read(maxLength: int) returns (status: SaneStatus, data: seq<Byte>)
      requires Valid()
      modifies this`bufferOffset, this`bufferReceived, this`trnsDataSize, this`scanning, buffer
      modifies scif`arrivals, scif`hasSock, scif`peeks, scif`trace
      ensures Valid() && status == old(StatusToGive()) && Past().given == old(Past()).given + data
      ensures data == (if old(scif.LineNow()).Present() then old(ToGive())[..Portion(maxLength, |old(ToGive())|)]
                       else [])
      ensures Tail() == old(ToGive())[|data|..]
      ensures 0 <= maxLength ==> |data| <= maxLength
      ensures old(scif.LineNow()).Present() ==> |data| == maxLength || Tail() == []
      ensures scif.LineNow() == var l := old(scif.LineNow()).AfterLook();
                                if old(Waits()) then l.(arrivals := AfterNext(l.arrivals)) else l
      ensures scif.AllArrivals() == old(scif.AllArrivals()) && Requests(scif.trace) == Requests(old(scif.trace))
      ensures Outcomes(scif.trace) == Outcomes(old(scif.trace)) + [(DoRead(maxLength), Gave(status, data))]
    {
      hide Lawful, Requests, Taken, Outcomes, StoryOf, Payloads, Continuable, Connected, Found, Size, Extends, Allowed;
      hide Waiting, Result, Proper, Measured, Told, NextOf, AfterNext, Tail;
      ghost var s, waits, toGive, next := Past(), Waits(), ToGive(), NextOf(scif.arrivals);
      ghost var present := scif.LineNow().Present();
      GivenAndTail(s.given, Tail(), toGive);
      status, data := ReadData(maxLength);
      ghost var t := scif.trace;
      ProperRead(t, s, present, waits, toGive, next, maxLength, status, data);
      scif.Note(Done(DoRead(maxLength), Gave(status, data)));
      ReadDone(t, maxLength, Gave(status, data), scif.trace);
      ToldOfRead(t, s, toGive, maxLength, status, data);
      MoveAlong(s.given, toGive, |data|);
      assert data == toGive[..|data|];
    }
  }

  lemma GivenAndTail(given: seq<Byte>, tail: seq<Byte>, toGive: seq<Byte>)
    ensures tail == [] ==> given + tail == given
  {
  }

  /** A read with the story s behind it. */
  lemma ProperRead(trace: seq<Step>, s: Story, present: bool, waits: bool, toGive: seq<Byte>, next: Arrival,
                   maxLength: int, status: SaneStatus, data: seq<Byte>)
    requires trace != [] && s == StoryOf(trace) && Found(trace) == present && Payloads(trace) == s.given + toGive
    requires waits ==> present && !Complete(trace, s) && next != Nothing && toGive == DataOf(next)
    requires if waits then LastOf(trace) == Received(next) || (LastOf(trace) == Hung && next == Lost)
             else LastOf(trace) == Looked(present) && (present ==> toGive != [] || Complete(trace, s))
    requires s.halted ==> !present
    requires status == if !present then if s.halted then CANCELLED else INVAL
                       else if waits then StatusOf(next) else if toGive == [] then EOF else GOOD
    requires data == if present then toGive[..Portion(maxLength, |toGive|)] else []
    ensures Gave(status, data) == Result(trace, DoRead(maxLength)) && Proper(trace, DoRead(maxLength))
    ensures Measured(trace, maxLength, Gave(status, data))
    ensures s.halted ==> Gave(status, data) == Gave(CANCELLED, [])
  {
    hide StoryOf, Found, Payloads, Complete, Portion;
    assert (s.given + toGive)[|s.given|..] == toGive;
  }

  lemma ToldOfRead(trace: seq<Step>, s: Story, toGive: seq<Byte>, maxLength: int, status: SaneStatus, data: seq<Byte>)
    requires Payloads(trace) == s.given + toGive
    ensures Told(trace, s, DoRead(maxLength), Gave(status, data))
         == s.(finished := s.finished || (status == GOOD && toGive != [] && Size(trace) <= |s.given| + |data|),
               given := s.given + data,
               stranded := s.stranded || (Continuable(trace) && !Connected(trace)))
  {
    hide Payloads, Size, Continuable, Connected;
    assert (s.given + toGive)[|s.given|..] == toGive;
  }

  lemma NoData(data: seq<Byte>)
    ensures data + DataOf(Nothing) == data && data + DataOf(Lost) == data
  {
  }
}
