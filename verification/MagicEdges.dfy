/** sanei/sanei_magic.c: sanei_magic_getTransY for colour and gray images, which finds the first change in each column
    by sliding two windows along it. */
module MagicEdges {
  import opened Machine

  const WIN_LEN: nat := 9

  /** depth is the number of bytes of a pixel: 3 for colour, 1 for gray. */
  datatype Image = Image(width: nat, height: nat, depth: nat, buffer: seq<Byte>)
  {
    predicate Valid() {
      height > 0 && 0 <= height * width && height * width * depth <= |buffer|
    }

    /** The sum of n bytes from a place on. */
    function Sum(at: nat, n: nat): nat
      requires at + n <= |buffer|
    {
      if n == 0 then 0 else Sum(at, n - 1) + buffer[at + n - 1] as nat
    }

    lemma InBuffer(line: nat, column: nat)
      requires Valid() && line < height && column < width
      ensures 0 <= (line * width + column) * depth && (line * width + column) * depth + depth <= |buffer|
    {
      assert line * width + width <= height * width by {
        Product(height - line - 1, width);
        assert height * width == line * width + width + (height - line - 1) * width;
      }
      Product(line, width);
      var pixel := line * width + column;
      Product(pixel, depth);
      Product(height * width - pixel - 1, depth);
      assert height * width * depth == pixel * depth + depth + (height * width - pixel - 1) * depth;
    }

    /** The value of a pixel. */
    function Pixel(line: nat, column: nat): nat
      requires Valid() && line < height && column < width
    {
      InBuffer(line, column);
      Sum((line * width + column) * depth, depth)
    }

    /** Where the scan begins and, just outside the image, ends. */
    function First(top: bool): int {
      if top then 0 else height - 1
    }

    function End(top: bool): int {
      if top then height else -1
    }

    /** The value t lines before line j in the direction of the scan; the first line stands for those outside. */
    function Before(column: nat, top: bool, j: int, t: nat): nat
      requires Valid() && column < width
    {
      var line := if top then j - t else j + t;
      Pixel(if 0 <= line < height then line else First(top), column)
    }

    /** The sum over the n lines that come from t lines before line j on. */
    function Window(column: nat, top: bool, j: int, t: nat, n: nat): nat
      requires Valid() && column < width
    {
      if n == 0 then 0 else Window(column, top, j, t, n - 1) + Before(column, top, j, t + n - 1)
    }

    /** The last nine lines, and the nine before them. */
    function Near(column: nat, top: bool, j: int): nat
      requires Valid() && column < width
    {
      Window(column, top, j, 0, WIN_LEN)
    }

    function Far(column: nat, top: bool, j: int): nat
      requires Valid() && column < width
    {
      Window(column, top, j, WIN_LEN, WIN_LEN)
    }

    /** The colour changes at line j. */
    predicate Changes(column: nat, top: bool, j: int)
      requires Valid() && column < width
    {
      Significant(Near(column, top, j), Far(column, top, j), depth)
    }

    /** r is the first line of the scan, after the first line of the image, at which the colour changes; or the end. */
    ghost predicate IsTransition(column: nat, top: bool, r: int)
      requires Valid() && column < width
    {
      && (r == End(top) || (0 <= r < height && r != First(top) && Changes(column, top, r)))
      && forall j | 0 <= j < height && j != First(top) && (if top then j < r else j > r) :: !Changes(column, top, j)
    }
  }

  lemma Product(a: nat, b: nat)
    ensures 0 <= a * b
  {
  }

  predicate Significant(near: int, far: int, depth: int) {
    (if near < far then far - near else near - far) > 50 * WIN_LEN * depth - near * 40 / 255
  }

  // ---- Sliding ------------------------------------------------------------------------------

  function Step(top: bool): int {
    if top then 1 else -1
  }

  /** A window at the line before is the window that begins one line earlier. */
  lemma {:induction false} WindowShifts(img: Image, column: nat, top: bool, j: int, t: nat, n: nat)
    requires img.Valid() && column < img.width
    ensures img.Window(column, top, j - Step(top), t, n) == img.Window(column, top, j, t + 1, n)
  {
    if n > 0 {
      WindowShifts(img, column, top, j, t, n - 1);
      assert img.Before(column, top, j - Step(top), t + n - 1) == img.Before(column, top, j, t + n);
    }
  }

  /** Both ends of a window. */
  lemma {:induction false} WindowEnds(img: Image, column: nat, top: bool, j: int, t: nat, n: nat)
    requires img.Valid() && column < img.width
    ensures img.Window(column, top, j, t, n) + img.Before(column, top, j, t + n)
         == img.Before(column, top, j, t) + img.Window(column, top, j, t + 1, n)
  {
    if n > 0 {
      WindowEnds(img, column, top, j, t, n - 1);
    }
  }

  /** Moving a window by one line: the line that it leaves is taken away and the one that it reaches added. */
  lemma WindowSlides(img: Image, column: nat, top: bool, j: int, t: nat, n: nat)
    requires img.Valid() && column < img.width
    ensures img.Window(column, top, j, t, n)
         == img.Window(column, top, j - Step(top), t, n) - img.Before(column, top, j, t + n)
           + img.Before(column, top, j, t)
  {
    WindowShifts(img, column, top, j, t, n);
    WindowEnds(img, column, top, j, t, n);
  }

  lemma Distribute(n: nat, a: nat)
    ensures n * a + a == (n + 1) * a
  {
  }

  /** At the first line both windows hold nothing else. */
  lemma {:induction false} WindowStarts(img: Image, column: nat, top: bool, t: nat, n: nat)
    requires img.Valid() && column < img.width
    ensures img.Window(column, top, img.First(top), t, n) == n * img.Pixel(img.First(top), column)
  {
    hide Image.Pixel;
    if n > 0 {
      var value := img.Pixel(img.First(top), column);
      WindowStarts(img, column, top, t, n - 1);
      assert img.Before(column, top, img.First(top), t + n - 1) == value;
      Distribute(n - 1, value);
    }
  }

  method PixelSum(img: Image, line: nat, column: nat) returns (sum: nat)
    requires img.Valid() && line < img.height && column < img.width
    ensures sum == img.Pixel(line, column)
  {
    img.InBuffer(line, column);
    var at := (line * img.width + column) * img.depth;
    sum := 0;
    for k := 0 to img.depth
      invariant sum == img.Sum(at, k)
    {
      sum := sum + img.buffer[at + k] as nat;
    }
  }

  /** Moves both windows from the line before to line j. */
  method Slide(img: Image, column: nat, top: bool, j: nat, near: nat, far: nat) returns (near2: int, far2: int)
    requires img.Valid() && column < img.width && j < img.height
    requires near == img.Near(column, top, j - Step(top)) && far == img.Far(column, top, j - Step(top))
    ensures near2 == img.Near(column, top, j) && far2 == img.Far(column, top, j)
  {
    hide Image.Pixel, Image.Window, Image.Valid;
    var firstLine, direction := img.First(top), Step(top);
    var farLine, nearLine := j - WIN_LEN * 2 * direction, j - WIN_LEN * direction;
    if farLine < 0 || farLine >= img.height {
      farLine := firstLine;
    }
    if nearLine < 0 || nearLine >= img.height {
      nearLine := firstLine;
    }
    var a := PixelSum(img, farLine, column);
    var b := PixelSum(img, nearLine, column);
    var c := PixelSum(img, j, column);
    WindowSlides(img, column, top, j, 0, WIN_LEN);
    WindowSlides(img, column, top, j, WIN_LEN, WIN_LEN);
    far2 := far - a + b;
    near2 := near - b + c;
  }

  /** Both windows start with repeated copies of the first pixel. */
  method Fill(img: Image, column: nat, top: bool) returns (near: nat, far: nat)
    requires img.Valid() && column < img.width
    ensures near == img.Near(column, top, img.First(top)) && far == img.Far(column, top, img.First(top))
  {
    hide Image.Pixel, Image.Window;
    near := PixelSum(img, img.First(top), column);
    near := near * WIN_LEN;
    far := near;
    WindowStarts(img, column, top, 0, WIN_LEN);
    WindowStarts(img, column, top, WIN_LEN, WIN_LEN);
  }

  /** The loop over one column. */
  method FindTransition(img: Image, column: nat, top: bool) returns (r: int)
    requires img.Valid() && column < img.width
    ensures img.IsTransition(column, top, r)
  {
    hide Image.Near, Image.Far, Significant;
    var firstLine, lastLine, direction := img.First(top), img.End(top), Step(top);
    var near, far := Fill(img, column, top);
    var j := firstLine + direction;
    while j != lastLine
      invariant if top then firstLine < j <= lastLine else lastLine <= j < firstLine
      invariant near == img.Near(column, top, j - direction) && far == img.Far(column, top, j - direction)
      invariant forall i | 0 <= i < img.height && i != firstLine && (if top then i < j else i > j) ::
                  !img.Changes(column, top, i)
      decreases if top then lastLine - j else j - lastLine
    {
      near, far := Slide(img, column, top, j, near, far);
      if Significant(near, far, img.depth) {
        return j;
      }
      j := j + direction;
    }
    r := lastLine;
  }

  // ---- Neighbours ---------------------------------------------------------------------------

  /** a / 2 in C. */
  function Half(a: int): int {
    if a >= 0 then a / 2 else -(-a / 2)
  }

  /** How many of the next n columns have their transition near that of column i. */
  function Neighbours(buff: seq<int>, i: nat, n: nat, dpi: int): nat
    requires i + n < |buff|
  {
    if n == 0 then 0
    else
      var d := buff[i + n] - buff[i];
      Neighbours(buff, i, n - 1, dpi) + if (if d < 0 then -d else d) < Half(dpi) then 1 else 0
  }

  /** Transitions with fewer than two neighbours among the next seven are dropped. */
  function Filtered(buff: seq<int>, dpi: int, lastLine: int): (r: seq<int>)
    ensures |r| == |buff|
  {
    seq(|buff|, i requires 0 <= i < |buff| =>
      if i < |buff| - 7 && Neighbours(buff, i, 7, dpi) < 2 then lastLine else buff[i])
  }

  lemma {:induction false} NeighboursSame(a: seq<int>, b: seq<int>, i: nat, n: nat, dpi: int)
    requires i + n < |a| == |b| && forall k | i <= k < |a| :: a[k] == b[k]
    ensures Neighbours(a, i, n, dpi) == Neighbours(b, i, n, dpi)
  {
    if n > 0 {
      NeighboursSame(a, b, i, n - 1, dpi);
    }
  }

  lemma FilteredAt(buff: seq<int>, dpi: int, lastLine: int, i: nat)
    requires i < |buff|
    ensures Filtered(buff, dpi, lastLine)[i]
         == if i < |buff| - 7 && Neighbours(buff, i, 7, dpi) < 2 then lastLine else buff[i]
  {
  }

  method CountNeighbours(buff: array<int>, i: nat, dpi: int) returns (sum: nat)
    requires i + 7 < buff.Length
    ensures sum == Neighbours(buff[..], i, 7, dpi)
  {
    sum := 0;
    for j := 1 to 8
      invariant sum == Neighbours(buff[..], i, j - 1, dpi)
    {
      var d := buff[i + j] - buff[i];
      if (if d < 0 then -d else d) < Half(dpi) {
        sum := sum + 1;
      }
    }
  }

  /** The last loop: although it overwrites the columns as it goes, it filters what was there at first. */
  method Filter(buff: array<int>, dpi: int, lastLine: int)
    modifies buff
    ensures buff[..] == Filtered(old(buff[..]), dpi, lastLine)
  {
    hide Filtered, Neighbours;
    ghost var was, goal := buff[..], Filtered(buff[..], dpi, lastLine);
    var i := 0;
    while i < buff.Length - 7
      invariant 0 <= i <= buff.Length && (i > 0 ==> i <= buff.Length - 7)
      invariant forall k | 0 <= k < i :: buff[k] == goal[k]
      invariant forall k | i <= k < buff.Length :: buff[k] == was[k]
      decreases buff.Length - i
    {
      NeighboursSame(buff[..], was, i, 7, dpi);
      FilteredAt(was, dpi, lastLine, i);
      var sum := CountNeighbours(buff, i, dpi);
      if sum < 2 {
        buff[i] := lastLine;
      }
      i := i + 1;
    }
    forall k | i <= k < buff.Length ensures buff[k] == goal[k] {
      FilteredAt(was, dpi, lastLine, k);
    }
  }

  /** sanei_magic_getTransY. */
  method GetTransY(img: Image, dpi: int, top: bool) returns (buff: array<int>, ghost transitions: seq<int>)
    requires img.Valid()
    ensures |transitions| == img.width && forall i | 0 <= i < img.width :: img.IsTransition(i, top, transitions[i])
    ensures fresh(buff) && buff[..] == Filtered(transitions, dpi, img.End(top))
  {
    var lastLine := img.End(top);
    buff := new int[img.width](i => lastLine);
    for i := 0 to img.width
      invariant fresh(buff) && forall c | 0 <= c < i :: img.IsTransition(c, top, buff[c])
    {
      var r := FindTransition(img, i, top);
      buff[i] := r;
    }
    transitions := buff[..];
    Filter(buff, dpi, lastLine);
  }
}
