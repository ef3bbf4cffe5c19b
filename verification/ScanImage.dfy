/** backend/odc_products.cpp: a frontend that starts a scan and reads until the end of the page. */
module ScanImage {
  import opened Machine
  import opened ScanReceive
  import opened ScanConnection
  import opened ScanDevice
  import opened ScanSession

  // ---- Image data on their way --------------------------------------------------------------

  /** The message with which the daemon sends data: their number, low byte first, two bytes of flags, and the data. What
      comes after them is not theirs. */
  function Packed(data: seq<Byte>, flags: Byte, more: Byte, extra: seq<Byte>): seq<Byte>
    requires |data| < 0x1_0000
  {
    [(|data| % 256) as Byte, (|data| / 256) as Byte, flags, more] + data + extra
  }

  lemma UnpackingData(data: seq<Byte>, flags: Byte, more: Byte, extra: seq<Byte>)
    requires |data| < 0x1_0000 && 4 + |data| + |extra| <= 16388
    ensures var message := Packed(data, flags, more, extra);
            IsSound(message) && DataOf(ScanData(message)) == data
  {
    var message := Packed(data, flags, more, extra);
    assert message[0] as nat + 256 * message[1] as nat == |data|;
  }

  /** The data of messages, one after the other. */
  function ImageOf(arrivals: seq<Arrival>): seq<Byte> {
    if arrivals == [] then [] else DataOf(arrivals[0]) + ImageOf(arrivals[1..])
  }

  /** Messages with some image data each. */
  predicate AllData(arrivals: seq<Arrival>) {
    forall i | 0 <= i < |arrivals| :: arrivals[i].ScanData? && DataOf(arrivals[i]) != []
  }

  lemma NoneLeft(arrivals: seq<Arrival>)
    requires AllData(arrivals)
    ensures ImageOf(arrivals) == [] <==> arrivals == []
  {
  }

  /** The daemon is there the next n times that it is looked for. */
  predicate Stays(line: Line, n: nat) {
    line.hasSock && n <= |line.peeks| && forall i | 0 <= i < n :: line.peeks[i]
  }

  lemma StaysOn(line: Line, n: nat)
    requires Stays(line, n + 1)
    ensures line.Present() && forall arrivals :: Stays(line.AfterLook().(arrivals := arrivals), n)
  {
  }

  lemma StaysLess(line: Line, n: nat, m: nat)
    requires Stays(line, n) && m <= n
    ensures Stays(line, m)
  {
  }

  lemma NextData(arrivals: seq<Arrival>, rest: seq<Arrival>)
    requires AllData(arrivals) && arrivals != []
    ensures NextOf(arrivals + rest) == arrivals[0] && AfterNext(arrivals + rest) == arrivals[1..] + rest
    ensures AllData(arrivals[1..]) && StatusOf(arrivals[0]) == GOOD
    ensures ImageOf(arrivals) == DataOf(arrivals[0]) + ImageOf(arrivals[1..])
  {
    assert (arrivals + rest)[1..] == arrivals[1..] + rest;
  }

  // ---- Reading one page ---------------------------------------------------------------------

  /** The device has given image; the rest of all waits in its buffer or is in messages. The daemon then stays for more
      looks. */
  ghost predicate Underway(d: Device, image: seq<Byte>, all: seq<Byte>, messages: seq<Arrival>, rest: seq<Arrival>,
                           more: nat)
    reads d, d.buffer, d.scif
  {
    && d.Valid() && d.Past().given == image && |all| == d.scanDataSize > 0 && |image| <= |all|
    && d.scif.arrivals == messages + rest && AllData(messages) && image + (d.Tail() + ImageOf(messages)) == all
    && Stays(d.scif.LineNow(), |all| - |image| + |messages| + 1 + more)
  }

  /** What a read has to give out is the beginning of what is still to come. */
  lemma StillToCome(d: Device, image: seq<Byte>, all: seq<Byte>, messages: seq<Arrival>, rest: seq<Arrival>, more: nat)
    requires Underway(d, image, all, messages, rest, more)
    ensures d.scif.LineNow().Present()
    ensures if d.Waits() then
              && messages != [] && AfterNext(d.scif.arrivals) == messages[1..] + rest && AllData(messages[1..])
              && image + (d.ToGive() + ImageOf(messages[1..])) == all && d.StatusToGive() == GOOD
            else
              && d.ToGive() == d.Tail() && d.StatusToGive() == (if d.Tail() == [] then EOF else GOOD)
              && (d.Tail() == [] ==> image == all && messages == [])
  {
    NoneLeft(messages);
    assert image + (d.Tail() + ImageOf(messages)) == (image + d.Tail()) + ImageOf(messages);
    if d.Waits() {
      assert image + ([] + ImageOf(messages)) == image + ImageOf(messages);
      NextData(messages, rest);
    } else if d.Tail() == [] {
      assert |image| + |ImageOf(messages)| == |all|;
      assert image + ([] + []) == image;
    }
  }

  lemma Given(image: seq<Byte>, toGive: seq<Byte>, rest: seq<Byte>, data: seq<Byte>)
    requires data <= toGive
    ensures image + (toGive + rest) == (image + data) + (toGive[|data|..] + rest)
  {
  }

  method ReadOnce(d: Device, maxLength: int, ghost image: seq<Byte>, ghost all: seq<Byte>,
                  ghost messages: seq<Arrival>, ghost rest: seq<Arrival>, ghost more: nat)
    returns (status: SaneStatus, data: seq<Byte>, ghost left: seq<Arrival>)
    requires Underway(d, image, all, messages, rest, more) && maxLength != 0
    modifies d`bufferOffset, d`bufferReceived, d`trnsDataSize, d`scanning, d.buffer
    modifies d.scif`arrivals, d.scif`hasSock, d.scif`peeks, d.scif`trace
    ensures d.useAdf == old(d.useAdf)
    ensures if status == GOOD then
              && Underway(d, image + data, all, left, rest, more)
              && |left| <= |messages| && (data != [] || |left| < |messages|)
            else
              && d.Valid() && status == EOF && data == [] && image == all
              && d.scif.arrivals == rest && Stays(d.scif.LineNow(), more)
  {
    hide Requests, Taken, Payloads, Continuable, Connected, Size, Lawful, StoryOf, Outcomes, Told;
    hide NextOf, AfterNext, StatusOf, DataOf, ImageOf, AllData, Stays, Portion, Complete, Due;
    hide Device.InSession, Device.Settled, Device.Tail;
    ghost var looks := |all| - |image| + |messages| + more;
    StaysOn(d.scif.LineNow(), looks);
    assert d.scif.LineNow().AfterLook() == d.scif.LineNow().AfterLook().(arrivals := d.scif.arrivals);
    StillToCome(d, image, all, messages, rest, more);
    left := if d.Waits() then messages[1..] else messages;
    ghost var toGive := d.ToGive();
    assert toGive[0..] == toGive;
    assert [] + rest == rest;
    status, data := d.Read(maxLength);
    Given(image, toGive, ImageOf(left), data);
    assert Stays(d.scif.LineNow(), looks);
    StaysLess(d.scif.LineNow(), looks, if status == GOOD then |all| - |image| - |data| + |left| + 1 + more else more);
  }

  /** Reads until the end of the page, with a buffer of any size, and however the data are divided into messages. */
  method ReadImage(d: Device, maxLength: int, ghost messages: seq<Arrival>, ghost rest: seq<Arrival>, ghost more: nat)
    returns (image: seq<Byte>, status: SaneStatus)
    requires d.Valid() && d.Past().given == [] && d.Tail() == [] && maxLength != 0
    requires d.scif.arrivals == messages + rest && AllData(messages) && |ImageOf(messages)| == d.scanDataSize > 0
    requires Stays(d.scif.LineNow(), d.scanDataSize + |messages| + 1 + more)
    modifies d`bufferOffset, d`bufferReceived, d`trnsDataSize, d`scanning, d.buffer
    modifies d.scif`arrivals, d.scif`hasSock, d.scif`peeks, d.scif`trace
    ensures d.Valid() && image == ImageOf(messages) && status == EOF && d.useAdf == old(d.useAdf)
    ensures d.scif.arrivals == rest && Stays(d.scif.LineNow(), more)
  {
    hide Device.Valid, ImageOf, AllData, Stays;
    ghost var all, left := ImageOf(messages), messages;
    image := [];
    assert [] + ([] + all) == all;
    while true
      invariant Underway(d, image, all, left, rest, more) && d.useAdf == old(d.useAdf)
      decreases |all| - |image| + |left|
    {
      var data;
      status, data, left := ReadOnce(d, maxLength, image, all, left, rest, more);
      if status != GOOD {
        return;
      }
      image := image + data;
    }
  }

  // ---- A stack of pages ---------------------------------------------------------------------

  /** The data of all the pages, with an answer to SCANCONTINUE before every page but the first. */
  function StackOf(pages: seq<seq<Arrival>>): seq<Arrival>
    requires pages != []
  {
    if |pages| == 1 then pages[0] else pages[0] + ([ContinueResponse] + StackOf(pages[1..]))
  }

  /** How often the daemon is looked for, at most. */
  function Looks(pages: seq<seq<Arrival>>, n: nat): nat {
    if pages == [] then 0 else n + |pages[0]| + 1 + Looks(pages[1..], n)
  }

  /** Every page has n bytes. */
  predicate PagesOf(pages: seq<seq<Arrival>>, n: nat) {
    forall i | 0 <= i < |pages| :: AllData(pages[i]) && |ImageOf(pages[i])| == n
  }

  lemma Continues(line: Line, size: nat)
    requires line.hasSock && Succeeds(line.sends) && First(line.arrivals) == ContinueResponse
    ensures BegunByContinue(line, size) == Begun(GOOD, [Continue], line.AfterSend().AfterReceive(), size, true)
  {
  }

  /** The pages left are still to come: before the first one, or after a page from the feeder. */
  ghost predicate Ready(d: Device, left: seq<seq<Arrival>>, n: nat, first: bool)
    reads d, d.buffer, d.scif
  {
    && d.Valid() && PagesOf(left, n) && |d.scif.sends| >= |left| && (forall i | 0 <= i < |left| :: d.scif.sends[i])
    && (if first then
          && left != [] && !d.useAdf && !d.scif.hasSock && Succeeds(d.scif.opens)
          && Stays(d.scif.LineNow().AfterOpen(), Looks(left, n))
          && d.scif.arrivals == [ScanResponse(2, n)] + StackOf(left)
        else
          && d.useAdf && d.scanDataSize == n && Stays(d.scif.LineNow(), Looks(left, n))
          && d.scif.arrivals == if left == [] then [] else [ContinueResponse] + StackOf(left))
  }

  method StartPage(d: Device, ghost left: seq<seq<Arrival>>, n: nat, ghost first: bool) returns (begun: SaneStatus)
    requires Ready(d, left, n, first) && left != []
    modifies d, d.scif
    ensures d.Valid() && d.Past().given == [] && d.Tail() == [] && begun == GOOD && d.useAdf && d.scanDataSize == n
    ensures d.scif.arrivals == StackOf(left) && Stays(d.scif.LineNow(), Looks(left, n))
    ensures |d.scif.sends| >= |left| - 1 && forall i | 0 <= i < |left| - 1 :: d.scif.sends[i]
  {
    hide Requests, Taken, Payloads, Continuable, Connected, Size, Lawful, StoryOf, Outcomes, Told;
    hide BegunByScan, BegunByContinue, PagesOf, StackOf, Looks;
    if first {
      ScanBegins(d.scif.LineNow(), d.scanDataSize, 2, n);
    } else {
      Continues(d.scif.LineNow(), d.scanDataSize);
    }
    assert Rest(d.scif.arrivals) == StackOf(left);
    ghost var made;
    begun, made := d.Start();
  }

  lemma StackParts(pages: seq<seq<Arrival>>, n: nat)
    requires pages != [] && PagesOf(pages, n)
    ensures AllData(pages[0]) && |ImageOf(pages[0])| == n && PagesOf(pages[1..], n)
    ensures StackOf(pages)
         == pages[0] + if pages[1..] == [] then [] else [ContinueResponse] + StackOf(pages[1..])
    ensures Looks(pages, n) == n + |pages[0]| + 1 + Looks(pages[1..], n)
  {
    hide AllData, ImageOf;
    assert pages[0] + [] == pages[0];
  }

  /** A start, and reads until the end of the page. */
  method ReadPage(d: Device, ghost left: seq<seq<Arrival>>, n: nat, ghost first: bool, maxLength: int)
    returns (begun: SaneStatus, image: seq<Byte>, status: SaneStatus)
    requires Ready(d, left, n, first) && left != [] && n > 0 && maxLength != 0
    modifies d, d.buffer, d.scif
    ensures begun == GOOD && image == ImageOf(left[0]) && status == EOF && Ready(d, left[1..], n, false)
  {
    hide Device.Valid, AllData, ImageOf, Stays, StackOf, Looks, PagesOf;
    StackParts(left, n);
    begun := StartPage(d, left, n, first);
    ghost var rest := if left[1..] == [] then [] else [ContinueResponse] + StackOf(left[1..]);
    image, status := ReadImage(d, maxLength, left[0], rest, Looks(left[1..], n));
  }

  /** A frontend scans a stack of pages from the feeder: it starts and reads until the end of the page, again and again.
      It gets the data of all the pages, page by page. */
  method ReadStack(pages: seq<seq<Arrival>>, n: nat, peeks: seq<bool>, sends: seq<bool>, maxLength: int)
    returns (images: seq<seq<Byte>>, statuses: seq<(SaneStatus, SaneStatus)>)
    requires pages != [] && PagesOf(pages, n) && n > 0 && maxLength != 0
    requires |peeks| >= Looks(pages, n) && forall i | 0 <= i < |peeks| :: peeks[i]
    requires |sends| >= |pages| && forall i | 0 <= i < |sends| :: sends[i]
    ensures |images| == |pages| && forall i | 0 <= i < |pages| :: images[i] == ImageOf(pages[i])
    ensures |statuses| == |pages| && forall i | 0 <= i < |pages| :: statuses[i] == (GOOD, EOF)
  {
    hide Device.Valid, ImageOf, PagesOf, Looks, StackOf;
    var scif := new Scandif([true], peeks, sends, [ScanResponse(2, n)] + StackOf(pages));
    var d := new Device(scif);
    images, statuses := [], [];
    ghost var left := pages;
    while |images| < |pages|
      invariant fresh(d) && fresh(d.buffer) && d.scif == scif && fresh(scif)
      invariant |statuses| == |images| <= |pages| && left == pages[|images|..] && Ready(d, left, n, images == [])
      invariant forall i | 0 <= i < |images| :: images[i] == ImageOf(pages[i]) && statuses[i] == (GOOD, EOF)
    {
      hide Ready;
      var begun, image, status := ReadPage(d, left, n, images == [], maxLength);
      images, statuses, left := images + [image], statuses + [(begun, status)], left[1..];
    }
  }
}
