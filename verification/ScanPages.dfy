/** driver/scandifc.cpp: scandif::scan, which scans page after page into files. */
module ScanPages {
  import opened Machine
  import opened ScanReceive

  /** A message, as far as scan looks at it. */
  datatype Reply =
    | ScanReply(src: nat)
    | ContinueReply
    | DataReply(data: seq<Byte>, last: bool, hasMoreDocs: bool)
    | ErrorReply(status: LibStatus)
    | OtherReply

  type Failure = s: LibStatus | s != SUCCESS witness IOERROR

  /** The outcome of scandif_recv: a message, or a status other than SUCCESS. */
  datatype Arrival = Arrived(reply: Reply) | Missed(status: Failure)

  const ADF := 2

  // ---- The log ------------------------------------------------------------------------------

  /** What scan does that can be seen: requests, the source that is used, pages that are begun, data that are written
      to the page's file or are lost because that fails, and ends of pages. */
  datatype Step =
    | SendScan
    | SendContinue
    | Source(src: nat)
    | BeginPage
    | Write(data: seq<Byte>, last: bool, ok: bool)
    | EndPage(more: bool)

  /** The source that the daemon has announced. */
  function SourceOf(log: seq<Step>): nat {
    if log == [] then 0
    else if log[|log| - 1].Source? then log[|log| - 1].src
    else SourceOf(log[..|log| - 1])
  }

  /** SCAN comes first, and SCANCONTINUE only after a page of the feeder that ended with more documents to come. A page
      is begun before its data are written, and ends with the last of them. */
  predicate Allowed(log: seq<Step>, step: Step) {
    match step
    case SendScan => log == []
    case SendContinue => log != [] && log[|log| - 1] == EndPage(true) && SourceOf(log) == ADF
    case Write(_, _, _) => Files(log) != []
    case EndPage(_) => log != [] && log[|log| - 1].Write? && log[|log| - 1].last
    case _ => log != []
  }

  ghost predicate Disciplined(log: seq<Step>) {
    forall i | 0 <= i < |log| :: Allowed(log[..i], log[i])
  }

  /** The contents of the files after one more step. */
  function Filed(files: seq<seq<Byte>>, step: Step): seq<seq<Byte>> {
    match step
    case BeginPage => files + [[]]
    case Write(data, _, true) => if files == [] then [] else files[|files| - 1 := files[|files| - 1] + data]
    case _ => files
  }

  /** The contents of the files, page by page. */
  function Files(log: seq<Step>): seq<seq<Byte>> {
    if log == [] then [] else Filed(Files(log[..|log| - 1]), log[|log| - 1])
  }

  /** What they would be if no write had failed. */
  function Intended(log: seq<Step>): seq<seq<Byte>> {
    if log == [] then [] else Filed(Intended(log[..|log| - 1]), Succeeded(log[|log| - 1]))
  }

  function Succeeded(step: Step): Step {
    if step.Write? then step.(ok := true) else step
  }

  predicate Fails(step: Step) {
    step.Write? && !step.ok
  }

  /** The writes among the steps. */
  function Writes(log: seq<Step>): seq<Step> {
    if log == [] then []
    else if log[|log| - 1].Write? then Writes(log[..|log| - 1]) + [log[|log| - 1]]
    else Writes(log[..|log| - 1])
  }

  /** The only writes that fail are those of the last data of a page. */
  ghost predicate OnlyLastLost(writes: seq<Step>) {
    forall step | step in writes && Fails(step) :: step.last
  }

  /** The only writes that fail have nothing to write. */
  ghost predicate NothingLost(writes: seq<Step>) {
    forall step | step in writes && Fails(step) :: step.data == []
  }

  /** What one more step changes. */
  ghost predicate Logged(before: seq<Step>, step: Step, log: seq<Step>) {
    && log == before + [step]
    && (Disciplined(log) <==> Disciplined(before) && Allowed(before, step))
    && SourceOf(log) == (if step.Source? then step.src else SourceOf(before))
    && Intended(log) == Filed(Intended(before), Succeeded(step)) && |Intended(log)| == |Files(log)|
    && Writes(log) == if step.Write? then Writes(before) + [step] else Writes(before)
  }

  lemma Extend(before: seq<Step>, step: Step)
    ensures Logged(before, step, before + [step])
  {
    hide Allowed, Files, Filed, Disciplined;
    var log := before + [step];
    assert log[..|log| - 1] == before;
    SameNumber(log);
    ExtendDiscipline(before, step);
  }

  lemma ExtendDiscipline(before: seq<Step>, step: Step)
    ensures Disciplined(before + [step]) <==> Disciplined(before) && Allowed(before, step)
  {
    hide Allowed;
    var log := before + [step];
    assert forall i | 0 <= i < |before| :: log[..i] == before[..i] && log[i] == before[i];
    assert log[..|before|] == before;
    if Disciplined(log) {
      assert log[|before|] == step;
    }
  }

  lemma {:induction false} SameNumber(log: seq<Step>)
    ensures |Intended(log)| == |Files(log)|
  {
    if log != [] {
      SameNumber(log[..|log| - 1]);
    }
  }

  lemma OneMoreWrite(writes: seq<Step>, step: Step)
    ensures NothingLost(writes + [step]) <==> NothingLost(writes) && (Fails(step) ==> step.data == [])
    ensures OnlyLastLost(writes + [step]) <==> OnlyLastLost(writes) && (Fails(step) ==> step.last)
  {
    assert step in writes + [step];
    assert forall s | s in writes :: s in writes + [step];
  }

  function Total(files: seq<seq<Byte>>): nat {
    if files == [] then 0 else Total(files[..|files| - 1]) + |files[|files| - 1]|
  }

  function Lost(log: seq<Step>): nat {
    if log == [] then 0
    else Lost(log[..|log| - 1]) + (if Fails(log[|log| - 1]) then |log[|log| - 1].data| else 0)
  }

  lemma TotalFiled(files: seq<seq<Byte>>, step: Step)
    requires step.Write? ==> files != []
    ensures Total(Filed(files, step)) == Total(files) + if step.Write? && step.ok then |step.data| else 0
  {
    var more := Filed(files, step);
    match step
    case BeginPage => assert more[..|more| - 1] == files;
    case Write(_, _, true) => assert more[..|more| - 1] == files[..|files| - 1];
    case _ =>
  }

  lemma {:induction false} LostBytes(log: seq<Step>)
    requires Disciplined(log)
    ensures Total(Intended(log)) == Total(Files(log)) + Lost(log)
    ensures Lost(log) == 0 ==> Files(log) == Intended(log)
    ensures Lost(log) == 0 <==> NothingLost(Writes(log))
  {
    if log != [] {
      var before, step := log[..|log| - 1], log[|log| - 1];
      assert log == before + [step];
      Extend(before, step);
      LostBytes(before);
      assert Allowed(before, step);
      SameNumber(before);
      OneMoreWrite(Writes(before), step);
      hide Disciplined, Allowed, NothingLost, OnlyLastLost, Total;
      TotalFiled(Files(before), step);
      TotalFiled(Intended(before), Succeeded(step));
      if Fails(step) && step.data == [] {
        var files := Intended(before);
        assert files[|files| - 1] + step.data == files[|files| - 1];
      }
    }
  }

  /** The files hold what was meant for them exactly if every failed write had nothing to write. */
  lemma LostExactly(log: seq<Step>)
    requires Disciplined(log)
    ensures Files(log) == Intended(log) <==> NothingLost(Writes(log))
  {
    LostBytes(log);
  }

  // ---- What the daemon sends, read at once --------------------------------------------------

  /** The status with which scan gives up at an arrival that it does not expect. An error message may carry any
      code, even SUCCESS. */
  function StatusAt(arrivals: seq<Arrival>): LibStatus {
    if arrivals == [] then DISCONNECTED
    else
      match arrivals[0]
      case Missed(s) => s
      case Arrived(ErrorReply(s)) => s
      case _ => IOERROR
  }

  /** The data of one message. */
  datatype Part = Part(data: seq<Byte>, last: bool)

  /** A page with its parts, and what follows; or the parts before arrivals that are not expected. */
  datatype Parsed =
    | Parsed(parts: seq<Part>, data: seq<Byte>, more: bool, rest: seq<Arrival>)
    | Unparsed(parts: seq<Part>, at: seq<Arrival>)
  {
    predicate Stops(status: LibStatus) {
      Unparsed? && StatusAt(at) == status
    }
  }

  /** The data up to the message that is marked as the last of the page. */
  function PageOf(arrivals: seq<Arrival>): Parsed {
    if arrivals != [] && arrivals[0].Arrived? && arrivals[0].reply.DataReply? then
      var r := arrivals[0].reply;
      if r.last then Parsed([Part(r.data, true)], r.data, r.hasMoreDocs, arrivals[1..])
      else Behind([Part(r.data, false)], r.data, PageOf(arrivals[1..]))
    else Unparsed([], arrivals)
  }

  function Behind(parts: seq<Part>, data: seq<Byte>, p: Parsed): Parsed {
    match p
    case Parsed(ps, d, more, rest) => Parsed(parts + ps, data + d, more, rest)
    case Unparsed(ps, at) => Unparsed(parts + ps, at)
  }

  /** Between pages, data are ignored until the daemon agrees to continue. */
  function NextPage(arrivals: seq<Arrival>): (p: Parsed)
    ensures p.parts == []
  {
    if arrivals != [] && arrivals[0].Arrived? && arrivals[0].reply.DataReply? then NextPage(arrivals[1..])
    else if arrivals != [] && arrivals[0] == Arrived(ContinueReply) then Parsed([], [], false, arrivals[1..])
    else Unparsed([], arrivals)
  }

  function AfterNoData(arrivals: seq<Arrival>): seq<Arrival> {
    if arrivals != [] && arrivals[0] == Missed(NODATA) then AfterNoData(arrivals[1..]) else arrivals
  }

  lemma {:induction false} PageShortens(arrivals: seq<Arrival>)
    ensures PageOf(arrivals).Parsed? ==> |PageOf(arrivals).rest| < |arrivals|
    ensures NextPage(arrivals).Parsed? ==> |NextPage(arrivals).rest| < |arrivals|
  {
    if arrivals != [] {
      PageShortens(arrivals[1..]);
    }
  }

  /** How it all ends: after the last page, or at arrivals that are not expected. */
  datatype Ending = Whole | Broken(at: seq<Arrival>)

  /** The pages, all their parts, and the ending. */
  datatype Course = Course(pages: seq<seq<Byte>>, parts: seq<Part>, ending: Ending)
  {
    function Status(): LibStatus {
      if ending.Whole? then SUCCESS else StatusAt(ending.at)
    }

    predicate Stops(status: LibStatus) {
      ending.Broken? && StatusAt(ending.at) == status
    }
  }

  function Prepend(pages: seq<seq<Byte>>, parts: seq<Part>, c: Course): Course {
    c.(pages := pages + c.pages, parts := parts + c.parts)
  }

  /** The pages: one, or, from the feeder, one for every document. */
  function CourseOf(adf: bool, arrivals: seq<Arrival>): Course
    decreases |arrivals|, 0
  {
    PageShortens(arrivals);
    match PageOf(arrivals)
    case Unparsed(parts, at) => Course([], parts, Broken(at))
    case Parsed(parts, data, more, rest) =>
      Prepend([data], parts, if adf && more then Onward(rest) else Course([], [], Whole))
  }

  /** The pages after one from the feeder that has ended with more documents to come. */
  function Onward(arrivals: seq<Arrival>): Course
    decreases |arrivals|, 1
  {
    PageShortens(arrivals);
    match NextPage(arrivals)
    case Unparsed(_, at) => Course([], [], Broken(at))
    case Parsed(_, _, _, rest) => CourseOf(true, rest)
  }

  /** The response to SCAN, for which scan waits as long as it takes, and the pages. */
  function Announced(arrivals: seq<Arrival>): bool {
    var a := AfterNoData(arrivals);
    a != [] && a[0].Arrived? && a[0].reply.ScanReply?
  }

  function ScanCourse(arrivals: seq<Arrival>): Course {
    var a := AfterNoData(arrivals);
    if Announced(arrivals) then CourseOf(a[0].reply.src == ADF, a[1..]) else Course([], [], Broken(a))
  }

  /** A scan can succeed in two ways: after all the pages, or at an error message whose code is SUCCESS. */
  lemma SuccessExactly(c: Course)
    ensures c.Status() == SUCCESS <==>
              c.ending.Whole? || (c.ending.at != [] && c.ending.at[0] == Arrived(ErrorReply(SUCCESS)))
  {
  }

  // ---- The writes that these pages call for -------------------------------------------------

  /** The parts, written one after the other; writes says which of them fail, and those beyond it succeed. */
  function Tried(parts: seq<Part>, writes: seq<bool>): seq<Step> {
    if parts == [] then []
    else [TriedPart(parts[0], writes)] + Tried(parts[1..], Behead(writes, 1))
  }

  function TriedPart(part: Part, writes: seq<bool>): Step {
    Write(part.data, part.last, writes == [] || writes[0])
  }

  function Behead(writes: seq<bool>, n: nat): seq<bool> {
    if n <= |writes| then writes[n..] else []
  }

  lemma BeheadTwice(writes: seq<bool>, m: nat, n: nat)
    ensures Behead(writes, 0) == writes && Behead(Behead(writes, m), n) == Behead(writes, m + n)
  {
  }

  lemma {:induction false} TriedTogether(a: seq<Part>, b: seq<Part>, writes: seq<bool>)
    ensures Tried(a + b, writes) == Tried(a, writes) + Tried(b, Behead(writes, |a|))
  {
    hide TriedPart, Behead;
    BeheadTwice(writes, 1, if a == [] then 0 else |a| - 1);
    if a == [] {
      assert a + b == b && Tried(a, writes) + Tried(b, writes) == Tried(b, writes);
    } else {
      var head := [TriedPart(a[0], writes)];
      TriedTogether(a[1..], b, Behead(writes, 1));
      assert (a + b)[1..] == a[1..] + b;
      Regroup(head, Tried(a[1..], Behead(writes, 1)), Tried(b, Behead(writes, |a|)));
    }
  }

  /** One more part. */
  lemma TriedFurther(parts: seq<Part>, part: Part, writes: seq<bool>)
    ensures Tried(parts + [part], writes) == Tried(parts, writes) + [TriedPart(part, Behead(writes, |parts|))]
    ensures Behead(Behead(writes, |parts|), 1) == Behead(writes, |parts + [part]|)
    ensures OnlyLastLost(Tried(parts + [part], writes)) <==>
              OnlyLastLost(Tried(parts, writes)) && (Fails(TriedPart(part, Behead(writes, |parts|))) ==> part.last)
  {
    TriedTogether(parts, [part], writes);
    OneMoreWrite(Tried(parts, writes), TriedPart(part, Behead(writes, |parts|)));
  }

  lemma TriedAfter(a: seq<Part>, b: seq<Part>, writes: seq<bool>)
    ensures Tried(a + b, writes) == Tried(a, writes) + Tried(b, Behead(writes, |a|))
    ensures Behead(Behead(writes, |a|), |b|) == Behead(writes, |a + b|)
    ensures OnlyLastLost(Tried(a + b, writes)) <==>
              OnlyLastLost(Tried(a, writes)) && OnlyLastLost(Tried(b, Behead(writes, |a|)))
  {
    TriedTogether(a, b, writes);
    LostTogether(Tried(a, writes), Tried(b, Behead(writes, |a|)));
  }

  lemma LostTogether(a: seq<Step>, b: seq<Step>)
    ensures OnlyLastLost(a + b) <==> OnlyLastLost(a) && OnlyLastLost(b)
  {
    assert forall s :: s in a || s in b <==> s in a + b;
  }

  /** The pages still to come before page number pagecnt. */
  function ToCome(pagecnt: nat, arrivals: seq<Arrival>): Course {
    if pagecnt == 1 then ScanCourse(arrivals) else Onward(arrivals)
  }

  function FromHere(more: bool, arrivals: seq<Arrival>): Course {
    if more then Onward(arrivals) else Course([], [], Whole)
  }

  // ---- The client ---------------------------------------------------------------------------

  predicate All(turns: seq<bool>, b: bool) {
    forall i | 0 <= i < |turns| :: turns[i] == b
  }

  /** The daemon, the file system and a user who may cancel at any time. The sequences say how the next calls turn out;
      after those the daemon is gone, the user does not cancel, and everything else succeeds. */
  class Scanner {
    var sends: seq<bool>
    var arrivals: seq<Arrival>
    var opens: seq<bool>
    var writes: seq<bool>
    var cancels: seq<bool>

    /** What has been done, and what has been received. */
    ghost var log: seq<Step>
    ghost var taken: seq<Arrival>

    constructor (sends: seq<bool>, arrivals: seq<Arrival>, opens: seq<bool>, writes: seq<bool>, cancels: seq<bool>)
      ensures log == [] && taken == [] && this.arrivals == arrivals
      ensures this.sends == sends && this.opens == opens && this.writes == writes && this.cancels == cancels
    {
      this.sends, this.arrivals, this.opens, this.writes, this.cancels := sends, arrivals, opens, writes, cancels;
      log, taken := [], [];
    }

    /** All that the daemon sends. */
    ghost function AllArrivals(): seq<Arrival>
      reads this`arrivals, this`taken
    {
      taken + arrivals
    }

    /** Requests can be sent, files can be opened, and there is no cancel. */
    ghost predicate Calm()
      reads this`sends, this`opens, this`cancels
    {
      All(sends, true) && All(opens, true) && All(cancels, false)
    }

    method Send(continuing: bool) returns (ok: bool)
      requires Allowed(log, if continuing then SendContinue else SendScan)
      modifies this`sends, this`log
      ensures Logged(old(log), if continuing then SendContinue else SendScan, log)
      ensures old(Calm()) ==> Calm() && ok
    {
      hide Logged;
      ok := sends == [] || sends[0];
      sends := if sends != [] then sends[1..] else [];
      Extend(log, if continuing then SendContinue else SendScan);
      log := log + [if continuing then SendContinue else SendScan];
    }

    method Receive() returns (a: Arrival)
      modifies this`arrivals, this`taken
      ensures a == (if old(arrivals) == [] then Missed(DISCONNECTED) else old(arrivals)[0])
      ensures arrivals == (if old(arrivals) == [] then [] else old(arrivals)[1..])
      ensures AllArrivals() == old(AllArrivals())
    {
      a := Missed(DISCONNECTED);
      if arrivals != [] {
        a := arrivals[0];
        arrivals := arrivals[1..];
        taken := taken + [a];
      }
    }

    method OpenFile() returns (ok: bool)
      requires log != []
      modifies this`opens, this`log
      ensures Logged(old(log), BeginPage, log)
      ensures old(Calm()) ==> Calm() && ok
    {
      hide Logged;
      ok := opens == [] || opens[0];
      opens := if opens != [] then opens[1..] else [];
      Extend(log, BeginPage);
      log := log + [BeginPage];
    }

    method WriteFile(data: seq<Byte>, last: bool) returns (ok: bool)
      requires Files(log) != []
      modifies this`writes, this`log
      ensures Logged(old(log), Write(data, last, ok), log)
      ensures ok == old(writes == [] || writes[0]) && writes == Behead(old(writes), 1)
    {
      hide Logged;
      ok := writes == [] || writes[0];
      writes := if writes != [] then writes[1..] else [];
      Extend(log, Write(data, last, ok));
      log := log + [Write(data, last, ok)];
    }

    method Canceled() returns (r: bool)
      modifies this`cancels
      ensures old(Calm()) ==> Calm() && !r
    {
      r := cancels != [] && cancels[0];
      cancels := if cancels != [] then cancels[1..] else [];
    }

    ghost method Note(step: Step)
      requires Allowed(log, step) && !step.Write?
      modifies this`log
      ensures Logged(old(log), step, log)
    {
      hide Logged;
      Extend(log, step);
      log := log + [step];
    }

    /** The SCAN request and its response, for which scan waits as long as it takes. */
    method RequestFirst() returns (done: bool, status: LibStatus, src: nat)
      requires log == []
      modifies this`sends, this`arrivals, this`taken, this`log
      ensures Disciplined(log) && log != [] && Intended(log) == [] && Writes(log) == []
      ensures |arrivals| <= |old(arrivals)| && AllArrivals() == old(AllArrivals())
      ensures old(Calm()) ==> Calm()
      ensures !done ==> SourceOf(log) == src && ScanCourse(old(arrivals)) == CourseOf(src == ADF, arrivals)
      ensures done ==> (ScanCourse(old(arrivals)).Stops(status) && ScanCourse(old(arrivals)).parts == [])
                       || (status != SUCCESS && !old(Calm()))
    {
      hide Disciplined, Intended, Files, SourceOf, Writes, Calm, AllArrivals, CourseOf, AfterNoData;
      src, done, status := 0, true, IOERROR;
      Nothing();
      var ok := Send(false);
      if !ok {
        return;
      }
      ghost var after := AfterNoData(arrivals);
      var a := Missed(NODATA);
      while a == Missed(NODATA)
        invariant |arrivals| <= |old(arrivals)| && AllArrivals() == old(AllArrivals())
        invariant if a == Missed(NODATA) then AfterNoData(arrivals) == after
                  else if after == [] then a == Missed(DISCONNECTED)
                  else after[0] == a && arrivals == after[1..]
        modifies this`arrivals, this`taken
        decreases |arrivals|, a == Missed(NODATA)
      {
        UnfoldNoData(arrivals);
        a := Receive();
      }
      match a {
        case Missed(s) =>
          status := s;
        case Arrived(ScanReply(s)) =>
          src, done, status := s, false, SUCCESS;
          Note(Source(s));
        case Arrived(ErrorReply(s)) =>
          status := s;
        case _ =>
      }
    }

    /** The SCANCONTINUE request and its response, for which scan does not wait; data that are still on their way
        are dropped. */
    method RequestNext() returns (done: bool, status: LibStatus)
      requires Disciplined(log) && Allowed(log, SendContinue)
      modifies this`sends, this`arrivals, this`taken, this`log
      ensures Logged(old(log), SendContinue, log)
      ensures |arrivals| <= |old(arrivals)| && AllArrivals() == old(AllArrivals())
      ensures old(Calm()) ==> Calm()
      ensures !done ==> NextPage(old(arrivals)).Parsed? && arrivals == NextPage(old(arrivals)).rest
      ensures done ==> NextPage(old(arrivals)).Stops(status) || (status != SUCCESS && !old(Calm()))
    {
      hide Logged, Allowed, Calm, AllArrivals;
      done, status := true, IOERROR;
      var ok := Send(true);
      if !ok {
        return;
      }
      while true
        invariant done && status == IOERROR && NextPage(old(arrivals)) == NextPage(arrivals)
        invariant |arrivals| <= |old(arrivals)| && AllArrivals() == old(AllArrivals())
        modifies this`arrivals, this`taken
        decreases |arrivals|
      {
        var a := Receive();
        match a {
          case Missed(s) =>
            status := s;
            return;
          case Arrived(ContinueReply) =>
            done, status := false, SUCCESS;
            return;
          case Arrived(DataReply(_, _, _)) =>
          case Arrived(ErrorReply(s)) =>
            status := s;
            return;
          case _ =>
            return;
        }
      }
    }

    /** Writes the data of one message; a failure to write the last data of a page is forgotten. */
    method TakeData(data: seq<Byte>, last: bool, hasMore: bool) returns (lsts: LibStatus, more: bool)
      requires Disciplined(log) && Files(log) != []
      modifies this`writes, this`log
      ensures Disciplined(log) && log != [] && Files(log) != [] && SourceOf(log) == SourceOf(old(log))
      ensures Intended(log) == Filed(Intended(old(log)), Write(data, last, true))
      ensures Writes(log) == Writes(old(log)) + [TriedPart(Part(data, last), old(writes))]
      ensures writes == Behead(old(writes), 1)
      ensures if last then lsts == END_OF_PAGE && more == hasMore && log[|log| - 1] == EndPage(more)
              else lsts == if Fails(TriedPart(Part(data, last), old(writes))) then FIOERROR else SUCCESS
    {
      hide Disciplined, Intended, Files, SourceOf, Writes;
      lsts, more := SUCCESS, false;
      SameNumber(log);
      var ok := WriteFile(data, last);
      if !ok {
        lsts := FIOERROR;
      }
      if last {
        lsts, more := END_OF_PAGE, hasMore;
        Note(EndPage(more));
      }
    }

    /** One message during a page. */
    method ReceivePart() returns (done: bool, lsts: LibStatus, more: bool, ghost part: Part)
      requires Disciplined(log) && Files(log) != []
      modifies this`arrivals, this`taken, this`writes, this`log
      ensures Disciplined(log) && Files(log) != [] && SourceOf(log) == SourceOf(old(log))
      ensures |arrivals| <= |old(arrivals)| && AllArrivals() == old(AllArrivals())
      ensures done ==> PageOf(old(arrivals)).Stops(lsts) && PageOf(old(arrivals)).parts == []
      ensures done ==> log == old(log) && writes == old(writes)
      ensures !done ==>
                && |arrivals| < |old(arrivals)|
                && Intended(log) == Filed(Intended(old(log)), Write(part.data, true, true))
                && Writes(log) == Writes(old(log)) + [TriedPart(part, old(writes))] && writes == Behead(old(writes), 1)
                && lsts == if part.last then END_OF_PAGE
                           else if Fails(TriedPart(part, old(writes))) then FIOERROR else SUCCESS
      ensures !done && part.last ==>
                && log != [] && log[|log| - 1] == EndPage(more)
                && PageOf(old(arrivals)) == Parsed([part], part.data, more, arrivals)
      ensures !done && !part.last ==> PageOf(old(arrivals)) == Behind([part], part.data, PageOf(arrivals))
    {
      hide Disciplined, Intended, Files, SourceOf, Writes, AllArrivals, Behind;
      done, lsts, more, part := true, IOERROR, false, Part([], false);
      var a := Receive();
      match a {
        case Missed(s) =>
          lsts := s;
        case Arrived(DataReply(data, last, hasMore)) =>
          done, part := false, Part(data, last);
          lsts, more := TakeData(data, last, hasMore);
        case Arrived(ErrorReply(s)) =>
          lsts := s;
        case _ =>
      }
    }

    /** The data of one page. A failed write ends the page with FIOERROR, unless it was the last one. */
    method ReceivePage() returns (done: bool, lsts: LibStatus, more: bool)
      requires Disciplined(log) && Files(log) != []
      modifies this`arrivals, this`taken, this`writes, this`cancels, this`log
      ensures Disciplined(log) && SourceOf(log) == SourceOf(old(log)) && (old(Calm()) ==> Calm())
      ensures |arrivals| <= |old(arrivals)| && AllArrivals() == old(AllArrivals())
      ensures done ==> PageOf(old(arrivals)).Stops(lsts)
      ensures !done ==> lsts == END_OF_PAGE || lsts == FIOERROR || (lsts == CANCELED && !old(Calm()))
      ensures !done && lsts == END_OF_PAGE ==>
                && log != [] && log[|log| - 1] == EndPage(more) && |arrivals| < |old(arrivals)|
                && PageOf(old(arrivals)).Parsed?
                && more == PageOf(old(arrivals)).more && arrivals == PageOf(old(arrivals)).rest
                && Intended(log) == Filed(Intended(old(log)), Write(PageOf(old(arrivals)).data, true, true))
      ensures var parts := PageOf(old(arrivals)).parts;
              if done || lsts == END_OF_PAGE then
                && Writes(log) == Writes(old(log)) + Tried(parts, old(writes))
                && OnlyLastLost(Tried(parts, old(writes)))
                && writes == Behead(old(writes), |parts|)
              else lsts == FIOERROR ==> !OnlyLastLost(Tried(parts, old(writes)))
    {
      hide Disciplined, Intended, Files, SourceOf, OnlyLastLost, Writes, Calm, AllArrivals, Filed, PageOf, Behind;
      hide Tried, TriedPart, Behead;
      done, lsts, more := false, SUCCESS, false;
      ghost var parts, written, files, before := [], [], Intended(log), Writes(log);
      SameNumber(log);
      NothingFiled(files, PageOf(arrivals));
      NothingTried(before, writes);
      while lsts == SUCCESS
        invariant Disciplined(log) && Files(log) != [] && SourceOf(log) == SourceOf(old(log))
                  && (old(Calm()) ==> Calm())
        invariant |arrivals| <= |old(arrivals)| && AllArrivals() == old(AllArrivals())
        invariant !done && lsts in {SUCCESS, FIOERROR, END_OF_PAGE}
        invariant Intended(log) == Filed(files, Write(written, true, true))
        invariant Writes(log) == before + Tried(parts, old(writes)) && writes == Behead(old(writes), |parts|)
        invariant lsts != FIOERROR <==> OnlyLastLost(Tried(parts, old(writes)))
        invariant lsts != END_OF_PAGE ==> PageOf(old(arrivals)) == Behind(parts, written, PageOf(arrivals))
        invariant lsts == END_OF_PAGE ==>
                    log != [] && log[|log| - 1] == EndPage(more) && |arrivals| < |old(arrivals)|
                    && PageOf(old(arrivals)) == Parsed(parts, written, more, arrivals)
        decreases |arrivals|, lsts == SUCCESS
      {
        BehindPage(parts, written, PageOf(arrivals));
        TriedAfter(parts, PageOf(arrivals).parts, old(writes));
        NothingTried(Writes(log), writes);
        var stop := Canceled();
        if stop {
          lsts := CANCELED;
          break;
        }
        ghost var part;
        done, lsts, more, part := ReceivePart();
        if done {
          return;
        }
        FiledTwice(files, written, part.data);
        BehindTwice(parts, written, part, PageOf(arrivals));
        TriedFurther(parts, part, old(writes));
        Regroup(before, Tried(parts, old(writes)), [TriedPart(part, Behead(old(writes), |parts|))]);
        parts, written := parts + [part], written + part.data;
      }
      BehindPage(parts, written, PageOf(arrivals));
      TriedAfter(parts, PageOf(arrivals).parts, old(writes));
    }

    /** The request for page number pagecnt. */
    method RequestPage(pagecnt: nat, source: nat) returns (done: bool, lsts: LibStatus, src: nat)
      requires if pagecnt == 1 then log == [] else Disciplined(log) && Allowed(log, SendContinue) && source == ADF
      modifies this`sends, this`arrivals, this`taken, this`log
      ensures Disciplined(log) && log != [] && Intended(log) == Intended(old(log)) && Writes(log) == Writes(old(log))
      ensures |arrivals| <= |old(arrivals)| && AllArrivals() == old(AllArrivals()) && (old(Calm()) ==> Calm())
      ensures !done ==> SourceOf(log) == src && ToCome(pagecnt, old(arrivals)) == CourseOf(src == ADF, arrivals)
      ensures done ==> (ToCome(pagecnt, old(arrivals)).Stops(lsts) && ToCome(pagecnt, old(arrivals)).parts == [])
                       || (lsts != SUCCESS && !old(Calm()))
    {
      hide Disciplined, Intended, Writes, Calm, AllArrivals, NextPage, CourseOf, Onward, ScanCourse;
      src := source;
      if pagecnt == 1 {
        Nothing();
        done, lsts, src := RequestFirst();
      } else {
        UnfoldOnward(arrivals);
        done, lsts := RequestNext();
      }
    }

    /** From the request to the end of one page, which is page number pagecnt. */
    method OnePage(pagecnt: nat, source: nat)
      returns (done: bool, lsts: LibStatus, src: nat, more: bool, ghost data: seq<Byte>, ghost parts: seq<Part>)
      requires if pagecnt == 1 then log == [] else Disciplined(log) && Allowed(log, SendContinue) && source == ADF
      modifies this
      ensures Disciplined(log) && |arrivals| <= |old(arrivals)| && AllArrivals() == old(AllArrivals())
      ensures old(Calm()) ==> Calm()
      ensures done ==> Stopped(ToCome(pagecnt, old(arrivals)), old(log), old(writes), log, lsts)
                       || (lsts != SUCCESS && !old(Calm()))
      ensures !done ==> lsts == END_OF_PAGE || (lsts in {CANCELED, FIOERROR} && !old(Calm()))
                        || (lsts == FIOERROR && !OnlyLastLost(Tried(ToCome(pagecnt, old(arrivals)).parts, old(writes))))
      ensures !done && lsts == END_OF_PAGE ==>
                && log != [] && log[|log| - 1] == EndPage(more) && |arrivals| < |old(arrivals)| && SourceOf(log) == src
                && Intended(log) == Intended(old(log)) + [data]
                && ToCome(pagecnt, old(arrivals)) == Prepend([data], parts, FromHere(src == ADF && more, arrivals))
                && Writes(log) == Writes(old(log)) + Tried(parts, old(writes))
                && OnlyLastLost(Tried(parts, old(writes)))
                && writes == Behead(old(writes), |parts|)
    {
      hide Disciplined, Intended, Files, SourceOf, OnlyLastLost, Writes, Calm, AllArrivals, PageOf, CourseOf, ToCome;
      hide Tried, Behead;
      more, data, parts := false, [], [];
      NothingTried(Writes(log), writes);
      done, lsts, src := RequestPage(pagecnt, source);
      if done {
        return;
      }
      ghost var files, beginning := Intended(log), arrivals;
      var ok := OpenFile();
      if !ok {
        lsts := FIOERROR;
        return;
      }
      UnfoldCourse(src == ADF, beginning);
      done, lsts, more := ReceivePage();
      if !done && lsts == END_OF_PAGE {
        data, parts := PageOf(beginning).data, PageOf(beginning).parts;
        NewFile(files, data);
      } else {
        if lsts == FIOERROR && !done {
          UnfoldParts(src == ADF, beginning, old(writes));
        }
      }
    }

    /** scan: with a source other than the feeder one page, and with the feeder a page for every document. It succeeds
        only if the daemon has sent all of them, or an error message with the code SUCCESS, and no write has failed but
        those of the last data of a page. If requests can be sent, files can be opened, and there is no cancel, this is
        exact. After all the pages the files hold them if and only if every failed write had nothing to write. */
    method Scan() returns (lsts: LibStatus)
      requires log == []
      modifies this
      ensures Disciplined(log) && AllArrivals() == old(AllArrivals())
      ensures var course := ScanCourse(old(arrivals));
              var tried := Tried(course.parts, old(writes));
              && (lsts == SUCCESS ==> course.Status() == SUCCESS && OnlyLastLost(tried) && Writes(log) == tried)
              && (old(Calm()) ==> lsts == if OnlyLastLost(tried) then course.Status() else FIOERROR)
              && (lsts == SUCCESS && course.ending.Whole? ==> (Files(log) == course.pages <==> NothingLost(tried)))
    {
      hide Disciplined, Intended, Files, SourceOf, OnlyLastLost, NothingLost, Writes, Calm, AllArrivals;
      hide ScanCourse, CourseOf, Onward, Tried, Behead, Allowed;
      Nothing();
      var pagecnt, src, more := 0, 0, false;
      ghost var course, all := ScanCourse(arrivals), writes;
      ghost var seen: seq<Part> := [];
      PrependNothing(course);
      NothingTried([], writes);
      while true
        invariant Disciplined(log) && AllArrivals() == old(AllArrivals()) && (old(Calm()) ==> Calm())
        invariant if pagecnt == 0 then log == [] && arrivals == old(arrivals)
                  else Allowed(log, SendContinue) && src == ADF
        invariant course == Prepend(Intended(log), seen, ToCome(pagecnt + 1, arrivals))
        invariant Writes(log) == Tried(seen, all) && OnlyLastLost(Writes(log)) && writes == Behead(all, |seen|)
        decreases |arrivals|, if pagecnt == 0 then 1 else 0
      {
        var stop := Canceled();
        if stop {
          return CANCELED;
        }
        pagecnt := pagecnt + 1;
        ghost var files, coming := Intended(log), ToCome(pagecnt, arrivals);
        TriedAfter(seen, coming.parts, all);
        var done;
        ghost var data, parts;
        done, lsts, src, more, data, parts := OnePage(pagecnt, src);
        if done || lsts != END_OF_PAGE {
          return;
        }
        lsts := SUCCESS;
        ghost var rest := FromHere(src == ADF && more, arrivals);
        PrependTwice(files, [data], seen, parts, rest);
        TriedAfter(seen, parts, all);
        seen := seen + parts;
        if src == ADF {
          if !more {
            LostExactly(log);
            return;
          }
        } else {
          LostExactly(log);
          return;
        }
        MayContinue(log);
      }
    }
  }

  /** All the parts have been written, up to arrivals at which scan gives up with a status. */
  ghost predicate Stopped(course: Course, before: seq<Step>, writes: seq<bool>, log: seq<Step>, status: LibStatus) {
    var tried := Tried(course.parts, writes);
    course.Stops(status) && Writes(log) == Writes(before) + tried && OnlyLastLost(tried)
  }

  /** The last write fails and the data are lost, and yet the scan succeeds. */
  method LosingLast() returns (s: Scanner, lsts: LibStatus)
    ensures lsts == SUCCESS && ScanCourse(s.taken + s.arrivals).pages == [[7]] && Files(s.log) != [[7]]
  {
    var page := [Arrived(DataReply([7], true, false))];
    var arrivals := [Arrived(ScanReply(1))] + page;
    s := new Scanner([], arrivals, [], [false], []);
    hide Disciplined, Files, Intended, Writes;
    assert arrivals[1..] == page;
    UnfoldCourse(false, page);
    var parts := [Part([7], true)];
    assert ScanCourse(arrivals) == Course([[7]], parts, Whole);
    assert Tried(parts, [false]) == [Write([7], true, false)];
    lsts := s.Scan();
  }

  /** Nothing is scanned, and yet the scan succeeds. */
  method SucceedingAtOnce() returns (s: Scanner, lsts: LibStatus)
    ensures lsts == SUCCESS && ScanCourse(s.taken + s.arrivals).pages == []
  {
    var arrivals := [Arrived(ErrorReply(SUCCESS))];
    s := new Scanner([], arrivals, [], [], []);
    hide Disciplined, Files, Intended, Writes;
    assert ScanCourse(arrivals) == Course([], [], Broken(arrivals));
    assert Tried([], []) == [];
    lsts := s.Scan();
  }

  lemma UnfoldCourse(adf: bool, arrivals: seq<Arrival>)
    ensures CourseOf(adf, arrivals)
         == match PageOf(arrivals)
            case Unparsed(parts, at) => Course([], parts, Broken(at))
            case Parsed(parts, data, more, rest) => Prepend([data], parts, FromHere(adf && more, rest))
  {
    PageShortens(arrivals);
  }

  /** A write that fails on the first page fails a scan. */
  lemma UnfoldParts(adf: bool, arrivals: seq<Arrival>, writes: seq<bool>)
    requires !OnlyLastLost(Tried(PageOf(arrivals).parts, writes))
    ensures !OnlyLastLost(Tried(CourseOf(adf, arrivals).parts, writes))
  {
    UnfoldCourse(adf, arrivals);
    var p := PageOf(arrivals);
    if p.Parsed? {
      TriedAfter(p.parts, FromHere(adf && p.more, p.rest).parts, writes);
    }
  }

  lemma UnfoldOnward(arrivals: seq<Arrival>)
    ensures Onward(arrivals)
         == match NextPage(arrivals)
            case Unparsed(_, at) => Course([], [], Broken(at))
            case Parsed(_, _, _, rest) => CourseOf(true, rest)
  {
  }

  lemma PrependNothing(c: Course)
    ensures Prepend([], [], c) == c
  {
    assert [] + c.pages == c.pages && [] + c.parts == c.parts;
  }

  lemma PrependTwice(a: seq<seq<Byte>>, b: seq<seq<Byte>>, x: seq<Part>, y: seq<Part>, c: Course)
    ensures Prepend(a, x, Prepend(b, y, c)) == Prepend(a + b, x + y, c)
    ensures Prepend(a + b, x + y, Course([], [], Whole)) == Course(a + b, x + y, Whole)
  {
    assert a + (b + c.pages) == (a + b) + c.pages && x + (y + c.parts) == (x + y) + c.parts;
  }

  lemma NewFile(files: seq<seq<Byte>>, data: seq<Byte>)
    ensures Filed(files + [[]], Write(data, true, true)) == files + [data]
  {
    assert [] + data == data;
  }

  lemma Nothing()
    ensures Disciplined([]) && Intended([]) == Files([]) == [] && Writes([]) == [] && OnlyLastLost([])
  {
  }

  lemma NothingTried(done: seq<Step>, writes: seq<bool>)
    ensures done + Tried([], writes) == done && OnlyLastLost(Tried([], writes)) && Behead(writes, 0) == writes
  {
  }

  lemma MayContinue(log: seq<Step>)
    requires log != [] && log[|log| - 1] == EndPage(true) && SourceOf(log) == ADF
    ensures Allowed(log, SendContinue)
  {
  }

  lemma UnfoldNoData(arrivals: seq<Arrival>)
    ensures AfterNoData(arrivals)
         == if arrivals != [] && arrivals[0] == Missed(NODATA) then AfterNoData(arrivals[1..]) else arrivals
  {
  }

  lemma NothingFiled(files: seq<seq<Byte>>, p: Parsed)
    requires files != []
    ensures Filed(files, Write([], true, true)) == files && Behind([], [], p) == p
  {
    assert files[|files| - 1] + [] == files[|files| - 1];
    assert [] + p.parts == p.parts && (p.Parsed? ==> [] + p.data == p.data);
  }

  lemma BehindPage(parts: seq<Part>, x: seq<Byte>, p: Parsed)
    ensures Behind(parts, x, p).parts == parts + p.parts
    ensures p.Unparsed? ==> Behind(parts, x, p) == Unparsed(parts + p.parts, p.at)
    ensures p.Parsed? ==> Behind(parts, x, p) == Parsed(parts + p.parts, x + p.data, p.more, p.rest)
  {
  }

  lemma BehindTwice(parts: seq<Part>, x: seq<Byte>, part: Part, p: Parsed)
    ensures Behind(parts, x, Behind([part], part.data, p)) == Behind(parts + [part], x + part.data, p)
  {
    assert parts + ([part] + p.parts) == (parts + [part]) + p.parts;
    assert p.Parsed? ==> x + (part.data + p.data) == (x + part.data) + p.data;
  }

  lemma FiledTwice(files: seq<seq<Byte>>, x: seq<Byte>, y: seq<Byte>)
    ensures Filed(Filed(files, Write(x, true, true)), Write(y, true, true)) == Filed(files, Write(x + y, true, true))
  {
    if files != [] {
      var f := files[|files| - 1];
      assert (f + x) + y == f + (x + y);
    }
  }
}
