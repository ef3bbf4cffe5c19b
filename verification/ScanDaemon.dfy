/** driver/scandifc.cpp: a daemon that keeps to the protocol, and what the page loop makes of its messages. */
module ScanDaemon {
  import opened Machine
  import opened ScanReceive
  import opened ScanPages

  /** A page as the daemon sends it: the data of its messages, of which the last one carries the marks. */
  datatype Page = Page(parts: seq<seq<Byte>>, end: seq<Byte>)

  function DataOf(page: Page): seq<Byte>
    decreases |page.parts|
  {
    if page.parts == [] then page.end else page.parts[0] + DataOf(Page(page.parts[1..], page.end))
  }

  /** Its messages; more tells whether another document is in the feeder. */
  function MessagesOf(page: Page, more: bool): (ms: seq<Arrival>)
    ensures |ms| > 0
    decreases |page.parts|
  {
    if page.parts == [] then [Arrived(DataReply(page.end, true, more))]
    else [Arrived(DataReply(page.parts[0], false, false))] + MessagesOf(Page(page.parts[1..], page.end), more)
  }

  /** The pages of a stack, with an answer to SCANCONTINUE before every page but the first. */
  function StackOf(pages: seq<Page>): seq<Arrival>
    requires pages != []
  {
    if |pages| == 1 then MessagesOf(pages[0], false)
    else MessagesOf(pages[0], true) + [Arrived(ContinueReply)] + StackOf(pages[1..])
  }

  function Images(pages: seq<Page>): (images: seq<seq<Byte>>)
    ensures |images| == |pages| && forall i | 0 <= i < |pages| :: images[i] == DataOf(pages[i])
  {
    seq(|pages|, i requires 0 <= i < |pages| => DataOf(pages[i]))
  }

  // ---- One page -----------------------------------------------------------------------------

  lemma {:induction false} PageIsParsed(page: Page, more: bool, rest: seq<Arrival>)
    ensures var p := PageOf(MessagesOf(page, more) + rest);
            p.Parsed? && p.data == DataOf(page) && p.more == more && p.rest == rest
    decreases |page.parts|
  {
    var ms := MessagesOf(page, more) + rest;
    if page.parts == [] {
      assert ms[1..] == rest;
    } else {
      var other := Page(page.parts[1..], page.end);
      PageIsParsed(other, more, rest);
      assert ms[1..] == MessagesOf(other, more) + rest;
      BehindPage([Part(page.parts[0], false)], page.parts[0], PageOf(ms[1..]));
    }
  }

  /** Without the feeder one page is scanned, whatever its marks say and whatever comes after it. */
  lemma SinglePage(page: Page, more: bool, rest: seq<Arrival>)
    ensures var c := CourseOf(false, MessagesOf(page, more) + rest);
            c.pages == [DataOf(page)] && c.ending == Whole
  {
    hide PageOf, MessagesOf, DataOf;
    PageIsParsed(page, more, rest);
    UnfoldCourse(false, MessagesOf(page, more) + rest);
  }

  // ---- A stack of pages ---------------------------------------------------------------------

  lemma {:induction false} WholeStack(pages: seq<Page>, rest: seq<Arrival>)
    requires pages != []
    ensures var c := CourseOf(true, StackOf(pages) + rest);
            c.pages == Images(pages) && c.ending == Whole
    decreases |pages|
  {
    hide PageOf, MessagesOf, DataOf, CourseOf, Onward;
    var ms := StackOf(pages) + rest;
    UnfoldCourse(true, ms);
    if |pages| == 1 {
      PageIsParsed(pages[0], false, rest);
      assert Images(pages) == [DataOf(pages[0])];
    } else {
      var further := [Arrived(ContinueReply)] + (StackOf(pages[1..]) + rest);
      assert ms == MessagesOf(pages[0], true) + further;
      PageIsParsed(pages[0], true, further);
      assert further[1..] == StackOf(pages[1..]) + rest;
      UnfoldOnward(further);
      WholeStack(pages[1..], rest);
      assert Images(pages) == [DataOf(pages[0])] + Images(pages[1..]);
    }
  }

  // ---- Scanning it --------------------------------------------------------------------------

  lemma AnnouncedCourse(silent: nat, src: nat, arrivals: seq<Arrival>)
    ensures ScanCourse(Silence(silent) + [Arrived(ScanReply(src))] + arrivals) == CourseOf(src == 2, arrivals)
  {
    hide CourseOf;
    var all := Silence(silent) + ([Arrived(ScanReply(src))] + arrivals);
    assert all == Silence(silent) + [Arrived(ScanReply(src))] + arrivals;
    SilencePasses(silent, [Arrived(ScanReply(src))] + arrivals);
    assert ([Arrived(ScanReply(src))] + arrivals)[1..] == arrivals;
  }

  /** Calls that time out before the daemon answers. */
  function Silence(n: nat): seq<Arrival> {
    seq(n, i => Missed(NODATA))
  }

  lemma {:induction false} SilencePasses(n: nat, arrivals: seq<Arrival>)
    requires arrivals != [] && arrivals[0].Arrived?
    ensures AfterNoData(Silence(n) + arrivals) == arrivals
  {
    if n == 0 {
      assert Silence(0) + arrivals == arrivals;
    } else {
      assert (Silence(n) + arrivals)[1..] == Silence(n - 1) + arrivals;
      SilencePasses(n - 1, arrivals);
    }
  }

  lemma AllTried(parts: seq<Part>)
    ensures forall step | step in Tried(parts, []) :: !Fails(step)
  {
    if parts != [] {
      AllTried(parts[1..]);
    }
  }

  /** Every document of a stack becomes a file with exactly its data. */
  method ScanStack(pages: seq<Page>, silent: nat, rest: seq<Arrival>) returns (s: Scanner, lsts: LibStatus)
    requires pages != []
    ensures lsts == SUCCESS && Files(s.log) == Images(pages)
  {
    hide CourseOf, StackOf, Images, Silence, ScanCourse, Tried, Files, Disciplined;
    s := new Scanner([], Silence(silent) + [Arrived(ScanReply(2))] + (StackOf(pages) + rest), [], [], []);
    AnnouncedCourse(silent, 2, StackOf(pages) + rest);
    WholeStack(pages, rest);
    AllTried(ScanCourse(s.arrivals).parts);
    lsts := s.Scan();
  }

  /** From any other source, one page is scanned. */
  method ScanSingle(page: Page, src: nat, more: bool, silent: nat, rest: seq<Arrival>)
    returns (s: Scanner, lsts: LibStatus)
    requires src != 2
    ensures lsts == SUCCESS && Files(s.log) == [DataOf(page)]
  {
    hide CourseOf, MessagesOf, DataOf, Silence, ScanCourse, Tried, Files, Disciplined;
    s := new Scanner([], Silence(silent) + [Arrived(ScanReply(src))] + (MessagesOf(page, more) + rest), [], [], []);
    AnnouncedCourse(silent, src, MessagesOf(page, more) + rest);
    SinglePage(page, more, rest);
    AllTried(ScanCourse(s.arrivals).parts);
    lsts := s.Scan();
  }
}
