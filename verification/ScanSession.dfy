/** backend/odc_products.cpp: whole sessions, in which a frontend starts, reads and cancels in any order. */
module ScanSession {
  import opened Machine
  import opened ScanReceive
  import opened ScanConnection
  import opened ScanDevice

  /** The data that reads have given since the last start. */
  function Given(outs: seq<Outcome>): seq<Byte> {
    if outs == [] then []
    else
      match outs[|outs| - 1]
      case Began(_) => []
      case Gave(_, data) => Given(outs[..|outs| - 1]) + data
      case Ended(_) => Given(outs[..|outs| - 1])
  }

  lemma GivenAfter(outs: seq<Outcome>, out: Outcome)
    ensures Given(outs + [out])
         == if out.Began? then [] else if out.Gave? then Given(outs) + out.data else Given(outs)
  {
    assert (outs + [out])[..|outs|] == outs;
  }

  /** The last thing was a read that reported the end of the page. */
  predicate AtEnd(outs: seq<Outcome>) {
    outs != [] && outs[|outs| - 1].Gave? && outs[|outs| - 1].status == EOF
  }

  function Paired(commands: seq<Command>, outs: seq<Outcome>): seq<(Command, Outcome)>
    requires |commands| == |outs|
  {
    seq(|outs|, i requires 0 <= i < |outs| => (commands[i], outs[i]))
  }

  lemma PairedAfter(commands: seq<Command>, outs: seq<Outcome>, command: Command, out: Outcome)
    requires |commands| == |outs|
    ensures Paired(commands + [command], outs + [out]) == Paired(commands, outs) + [(command, out)]
  {
  }

  /** No read has given more than its caller has room for. */
  predicate AllFit(commands: seq<Command>, outs: seq<Outcome>)
    requires |commands| == |outs|
  {
    forall i | 0 <= i < |outs| && commands[i].DoRead? ::
      outs[i].Gave? && (0 <= commands[i].maxLength ==> |outs[i].data| <= commands[i].maxLength)
  }

  /** The device, after commands that have led to outs. */
  ghost predicate Follows(d: Device, commands: seq<Command>, outs: seq<Outcome>)
    reads d, d.buffer, d.scif
  {
    && d.Valid() && |commands| == |outs| && Outcomes(d.scif.trace) == Paired(commands, outs)
    && AllFit(commands, outs) && Given(outs) == d.Past().given && (AtEnd(outs) ==> d.Tail() == [])
  }

  /** Any session with any daemon. The trace that the connection keeps is lawful: each request in it is the one that is
      due, and each outcome is the one that the steps before it determine. Its outcomes are those of the commands. No
      read gives more than its caller has room for. What the reads since the last start have given, followed by what
      waits in the buffer, is all the image data that have arrived since; nothing waits at the end of a page; and no
      arrival is passed over. */
  method Session(scif: Scandif, commands: seq<Command>) returns (outs: seq<Outcome>, d: Device)
    requires scif.trace == [] && !scif.hasSock
    modifies scif
    ensures d.Valid() && d.scif == scif && Lawful(scif.trace)
    ensures |outs| == |commands| && Outcomes(scif.trace) == Paired(commands, outs) && AllFit(commands, outs)
    ensures Given(outs) + d.Tail() == Payloads(scif.trace) && (AtEnd(outs) ==> d.Tail() == [])
    ensures Taken(scif.trace) + scif.arrivals == old(scif.arrivals)
  {
    d := new Device(scif);
    outs := [];
    assert [] + scif.arrivals == scif.arrivals;
    for i := 0 to |commands|
      invariant fresh(d) && fresh(d.buffer) && d.scif == scif && |outs| == i && Follows(d, commands[..i], outs)
      invariant scif.AllArrivals() == old(scif.arrivals)
    {
      assert commands[..i + 1] == commands[..i] + [commands[i]];
      outs := Perform(d, commands[..i], outs, commands[i]);
    }
    assert commands[..|commands|] == commands;
  }

  method Perform(d: Device, ghost commands: seq<Command>, outs: seq<Outcome>, command: Command)
    returns (all: seq<Outcome>)
    requires Follows(d, commands, outs)
    modifies d, d.buffer, d.scif
    ensures |all| == |outs| + 1 && Follows(d, commands + [command], all)
    ensures d.scif.AllArrivals() == old(d.scif.AllArrivals())
  {
    hide Given, Payloads, Taken, Outcomes, Paired, Lawful, StoryOf;
    var out;
    match command {
      case DoStart =>
        ghost var made;
        var status;
        status, made := d.Start();
        out := Began(status);
      case DoRead(maxLength) =>
        var status, data := d.Read(maxLength);
        out := Gave(status, data);
      case DoCancel =>
        d.Cancel();
        out := Ended(d.canceled);
    }
    GivenAfter(outs, out);
    PairedAfter(commands, outs, command, out);
    all := outs + [out];
  }

  // ---- Sessions with a result that a caller does not expect -----------------------------------

  /** An error status with the code SUCCESS lets start report GOOD although no scan has begun. */
  method GoodWithoutScan() returns (status: SaneStatus, scif: Scandif)
    ensures status == GOOD && Requests(scif.trace) == [Scan] && Taken(scif.trace) == [ErrorStatus(SUCCESS)]
  {
    hide Requests, Taken, Payloads, Continuable, Connected, Size, Lawful, StoryOf, Outcomes, Told, BegunByScan;
    NothingYet();
    scif := new Scandif([true], [], [true], [ErrorStatus(SUCCESS)]);
    assert scif.AllArrivals() == [ErrorStatus(SUCCESS)];
    var d := new Device(scif);
    ghost var made;
    ScanSucceeds(scif.LineNow(), 0);
    status, made := d.Start();
    assert Taken(scif.trace) + [] == Taken(scif.trace);
  }

  lemma ScanSucceeds(line: Line, size: nat)
    requires !line.hasSock && Succeeds(line.opens) && Succeeds(line.sends)
    requires First(line.arrivals) == ErrorStatus(SUCCESS)
    ensures BegunByScan(line, size)
         == Begun(GOOD, [Scan], line.AfterLook().AfterOpen().AfterSend().AfterReceive(), size, false)
  {
  }

  lemma NothingYet()
    ensures Requests([]) == [] && Taken([]) == []
  {
  }

  /** The daemon goes away between two pages, and comes back. Every start fails until there is a cancel, although
      the daemon could be reached. */
  method StrandedUntilCancel() returns (lost: SaneStatus, first: SaneStatus, second: SaneStatus, third: SaneStatus)
    ensures lost == first == second == INVAL && third == GOOD
  {
    hide Requests, Taken, Payloads, Continuable, Connected, Size, Lawful, StoryOf, Outcomes, Told;
    hide BegunByScan, BegunByContinue, NextOf, AfterNext, StatusOf, DataOf, ImageData, IsSound;
    var page := ScanResponse(2, 100);
    var scif := new Scandif([true, true], [false], [true, true, true, true], [page, page]);
    var d := new Device(scif);
    ghost var made;
    var begun, data;
    ScanBegins(scif.LineNow(), 0, 2, 100);
    begun, made := d.Start();
    lost, data := d.Read(10);
    assert !scif.hasSock && d.useAdf;
    NoSocket(scif.LineNow(), d.scanDataSize);
    first, made := d.Start();
    NoSocket(scif.LineNow(), d.scanDataSize);
    second, made := d.Start();
    d.Cancel();
    ScanBegins(scif.LineNow(), d.scanDataSize, 2, 100);
    third, made := d.Start();
  }

  lemma ScanBegins(line: Line, size: nat, src: nat, n: nat)
    requires !line.hasSock && Succeeds(line.opens) && Succeeds(line.sends)
             && First(line.arrivals) == ScanResponse(src, n)
    ensures var l := line.AfterLook().AfterOpen().AfterSend().AfterReceive();
            BegunByScan(line, size) == Begun(GOOD, [Scan], l, n, src == 2) && l.hasSock
  {
  }

  lemma NoSocket(line: Line, size: nat)
    requires !line.hasSock
    ensures BegunByContinue(line, size) == Begun(INVAL, [Continue], line.AfterSend().AfterClose(), size, true)
  {
  }

  /** The daemon goes away before a cancel: the read after it does not report that the scan was canceled. */
  method CancelUnnoticed() returns (begun: SaneStatus, read: SaneStatus, data: seq<Byte>)
    ensures begun == GOOD && read == INVAL && data == []
  {
    hide Requests, Taken, Payloads, Continuable, Connected, Size, Lawful, StoryOf, Outcomes, Told;
    hide BegunByScan, BegunByContinue, NextOf, AfterNext, StatusOf, DataOf, ImageData, IsSound;
    var scif := new Scandif([true], [false], [true], [ScanResponse(1, 100)]);
    var d := new Device(scif);
    ScanBegins(scif.LineNow(), 0, 1, 100);
    ghost var made;
    begun, made := d.Start();
    d.Cancel();
    read, data := d.Read(10);
  }

  /** A cancel after the whole image of one byte: the read after it does not report it either. */
  method CancelAfterTheEnd() returns (begun: SaneStatus, last: SaneStatus, read: SaneStatus, data: seq<Byte>)
    ensures begun == last == GOOD && read == INVAL && data == []
  {
    hide Requests, Taken, Payloads, Continuable, Connected, Size, Lawful, StoryOf, Outcomes, Told;
    hide BegunByScan, BegunByContinue, NextOf, AfterNext, StatusOf, DataOf, ImageData;
    var message := [1, 0, 0, 0, 7];
    OneByte(message);
    NextIsFirst([ScanData(message)]);
    var scif := new Scandif([true], [true, true], [true], [ScanResponse(1, 1), ScanData(message)]);
    var d := new Device(scif);
    ScanBegins(scif.LineNow(), 0, 1, 1);
    ghost var made;
    begun, made := d.Start();
    assert scif.arrivals == [ScanData(message)] && d.trnsDataSize == 0 && d.Waits();
    last := LastRead(d, [7]);
    d.Cancel();
    read, data := d.Read(10);
  }

  /** The read that gives out the whole image. */
  method LastRead(d: Device, image: seq<Byte>) returns (status: SaneStatus)
    requires d.Valid() && d.Past().given == [] && !d.canceled && d.scif.LineNow().Present() && d.Waits()
    requires |image| == d.scanDataSize == 1
    requires DataOf(NextOf(d.scif.arrivals)) == image && StatusOf(NextOf(d.scif.arrivals)) == GOOD
    modifies d, d.buffer, d.scif
    ensures d.Valid() && !d.scanning && !d.canceled && status == GOOD
    ensures d.scif.LineNow().hasSock && d.scif.LineNow().peeks == old(Following(d.scif.LineNow().peeks))
  {
    hide Requests, Taken, Payloads, Continuable, Connected, Size, Lawful, StoryOf, Outcomes, Told;
    hide NextOf, AfterNext, StatusOf, DataOf;
    var data;
    status, data := d.Read(10);
    assert d.Past().given == [] + image;
  }

  lemma OneByte(message: seq<Byte>)
    requires message == [1, 0, 0, 0, 7]
    ensures IsSound(message) && StatusOf(ScanData(message)) == GOOD && DataOf(ScanData(message)) == [7]
  {
  }

  /** The daemon ends a page of 100 bytes before it has sent any. */
  method EarlyEnd() returns (begun: SaneStatus, read: SaneStatus, data: seq<Byte>, size: nat)
    ensures begun == GOOD && size == 100 && read == EOF && data == []
  {
    hide Requests, Taken, Payloads, Continuable, Lawful, StoryOf, Outcomes;
    hide BegunByScan, BegunByContinue, NextOf, AfterNext, ImageData, IsSound, StatusOf, DataOf, Connected, Size, Told;
    var end := ErrorStatus(END_OF_PAGE);
    NextIsFirst([end]);
    EndGivesNothing();
    var scif := new Scandif([true], [true], [true], [ScanResponse(1, 100), end]);
    var d := new Device(scif);
    ScanBegins(scif.LineNow(), 0, 1, 100);
    ghost var made;
    begun, made := d.Start();
    size := d.scanDataSize;
    assert scif.arrivals == [end] && d.trnsDataSize == 0 && d.Waits();
    read, data := d.Read(10);
  }

  lemma EndGivesNothing()
    ensures StatusOf(ErrorStatus(END_OF_PAGE)) == EOF && DataOf(ErrorStatus(END_OF_PAGE)) == []
  {
  }

  lemma NextIsFirst(arrivals: seq<Arrival>)
    requires First(arrivals) != Nothing
    ensures NextOf(arrivals) == First(arrivals)
  {
  }
}
