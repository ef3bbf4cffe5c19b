/** sanei/sanei_magic.c: sanei_magic_crop, which moves the cropped rows to the front of the same buffer. */
module MagicCrop {

  import opened Machine

  datatype Format = Rgb | Gray | OtherFrame

  datatype Params = Params(format: Format, depth: int, pixelsPerLine: int, bytesPerLine: int, lines: int)

  /** The cropped columns in bytes, and the number of pixels that they hold. */
  datatype Columns = Columns(left: nat, bytes: nat, pixels: nat) | Unsupported

  /** Columns from left to right, which is not included; of binary images, the whole bytes that hold them. */
  function ColumnsOf(p: Params, left: nat, right: nat): Columns
    requires left <= right
  {
    if p.format == Rgb then Columns(left * 3, (right - left) * 3, right - left)
    else if p.format == Gray && p.depth == 8 then Columns(left, right - left, right - left)
    else if p.format == Gray && p.depth == 1 then
      Columns(left / 8, (right + 7) / 8 - left / 8, ((right + 7) / 8 - left / 8) * 8)
    else Unsupported
  }

  /** The image lies in the buffer, and the cropped part in the image. */
  predicate InImage(p: Params, size: nat, top: nat, bot: nat, left: nat, right: nat) {
    && left <= right && top <= bot <= p.lines && p.bytesPerLine >= 0 && p.lines * p.bytesPerLine <= size
    && var c := ColumnsOf(p, left, right); c.Columns? ==> c.left + c.bytes <= p.bytesPerLine
  }

  // ---- Rows ---------------------------------------------------------------------------------

  lemma RowBounds(row: nat, rows: nat, width: nat)
    requires row < rows
    ensures 0 <= row * width && row * width + width <= rows * width
  {
    var more := rows - row - 1;
    assert rows * width == row * width + width + more * width;
  }

  lemma Narrower(n: nat, bytes: nat, width: nat, row: nat)
    requires bytes <= width && n <= row
    ensures 0 <= n * bytes <= row * width
  {
    assert n * bytes <= n * width;
    assert n * width <= row * width;
  }

  /** The part of a row, in an image whose rows are width bytes apart. */
  function RowPart(b: seq<Byte>, width: nat, row: nat, left: nat, bytes: nat): (s: seq<Byte>)
    requires 0 <= row * width && row * width + left + bytes <= |b|
    ensures |s| == bytes
  {
    b[row * width + left..row * width + left + bytes]
  }

  /** Rows top to top + n, cut to the columns, one after the other. */
  function Cropped(b: seq<Byte>, width: nat, top: nat, n: nat, left: nat, bytes: nat): (s: seq<Byte>)
    requires left + bytes <= width && (top + n) * width <= |b|
    ensures |s| == n * bytes
  {
    if n == 0 then []
    else
      RowBounds(top + n - 1, top + n, width);
      RowsBefore(top, n, width, |b|);
      Cropped(b, width, top, n - 1, left, bytes) + RowPart(b, width, top + n - 1, left, bytes)
  }

  lemma RowsBefore(top: nat, n: nat, width: nat, size: nat)
    requires n > 0 && (top + n) * width <= size
    ensures (top + n - 1) * width <= size
  {
  }

  lemma CropStep(b: seq<Byte>, width: nat, top: nat, n: nat, left: nat, bytes: nat)
    requires left + bytes <= width && (top + n + 1) * width <= |b|
    ensures (top + n) * width + width <= |b| && 0 <= (top + n) * width
    ensures Cropped(b, width, top, n + 1, left, bytes)
         == Cropped(b, width, top, n, left, bytes) + RowPart(b, width, top + n, left, bytes)
    ensures (n + 1) * bytes == n * bytes + bytes && 0 <= n * bytes
  {
    RowBounds(top + n, top + n + 1, width);
  }

  /** Row r of the result is the part of row top + r of the image. */
  lemma {:induction false} CroppedRow(b: seq<Byte>, width: nat, top: nat, n: nat, left: nat, bytes: nat, r: nat)
    requires left + bytes <= width && (top + n) * width <= |b| && r < n
    ensures 0 <= r * bytes && r * bytes + bytes <= n * bytes
    ensures 0 <= (top + r) * width && (top + r) * width + width <= |b|
    ensures Cropped(b, width, top, n, left, bytes)[r * bytes..r * bytes + bytes]
              == RowPart(b, width, top + r, left, bytes)
    decreases n
  {
    RowBounds(r, n, bytes);
    RowBounds(top + r, top + n, width);
    RowBounds(top + n - 1, top + n, width);
    if r < n - 1 {
      CroppedRow(b, width, top, n - 1, left, bytes, r);
    }
  }

  // ---- The method ---------------------------------------------------------------------------

  method Copy(buffer: array<Byte>, to: nat, line: seq<Byte>)
    requires to + |line| <= buffer.Length
    modifies buffer
    ensures buffer[..] == old(buffer[..to]) + line + old(buffer[to + |line|..])
  {
    forall i | 0 <= i < |line| {
      buffer[to + i] := line[i];
    }
  }

  /** The buffer holds the rows that have been moved, and from there on it is still the image. */
  ghost predicate Moved(b: seq<Byte>, image: seq<Byte>, done: seq<Byte>) {
    |done| <= |b| == |image| && b == done + image[|done|..]
  }

  lemma MovedFurther(b: seq<Byte>, image: seq<Byte>, done: seq<Byte>, from: nat, bytes: nat)
    requires Moved(b, image, done) && |done| <= from && from + bytes <= |image|
    ensures b[from..from + bytes] == image[from..from + bytes]
    ensures Moved(b[..|done|] + image[from..from + bytes] + b[|done| + bytes..],
                  image, done + image[from..from + bytes])
  {
  }

  /** One turn of the loop: the row is read before anything is written over it. */
  method MoveRow(buffer: array<Byte>, ghost image: seq<Byte>, ghost done: seq<Byte>, pos: nat, from: nat, bytes: nat)
    requires Moved(buffer[..], image, done) && |done| == pos <= from && from + bytes <= |image|
    modifies buffer
    ensures Moved(buffer[..], image, done + image[from..from + bytes])
  {
    ghost var b := buffer[..];
    MovedFurther(b, image, done, from, bytes);
    hide Moved;
    var line := buffer[from..from + bytes];
    assert line == b[from..from + bytes];
    Copy(buffer, pos, line);
    assert buffer[..] == b[..pos] + line + b[pos + bytes..];
  }

  /** Where the rows that are read and written lie. */
  lemma RowPlaces(width: nat, top: nat, row: nat, bot: nat, left: nat, bytes: nat, size: nat)
    requires top <= row < bot && bot * width <= size && left + bytes <= width
    ensures 0 <= (row - top) * bytes <= row * width + left
    ensures row * width + left + bytes <= size && (row + 1) * width <= size
    ensures (row - top) * bytes + bytes == (row + 1 - top) * bytes
  {
    RowBounds(row, bot, width);
    RowBounds(row - top, bot - top, bytes);
    Narrower(row - top, bytes, width, row);
  }

  /** Rows top to top + n have been moved to the first pos bytes. */
  ghost predicate Progress(b: seq<Byte>, image: seq<Byte>, width: nat, top: nat, n: nat, left: nat, bytes: nat,
                           pos: nat)
    requires left + bytes <= width
  {
    && (top + n) * width <= |image|
    && var done := Cropped(image, width, top, n, left, bytes); Moved(b, image, done) && pos == |done|
  }

  /** One turn of the loop of sanei_magic_crop, for row top + n. */
  method NextRow(buffer: array<Byte>, ghost image: seq<Byte>, width: nat, top: nat, n: nat, bot: nat, left: nat,
                 bytes: nat, pos: nat)
    requires left + bytes <= width && top + n < bot && InBuffer(width, bot, buffer.Length) && |image| == buffer.Length
    requires Progress(buffer[..], image, width, top, n, left, bytes, pos)
    modifies buffer
    ensures Progress(buffer[..], image, width, top, n + 1, left, bytes, pos + bytes)
  {
    RowPlaces(width, top, top + n, bot, left, bytes, buffer.Length);
    CropStep(image, width, top, n, left, bytes);
    RowPartIs(image, width, top + n, left, bytes);
    hide Moved, Cropped, RowPart;
    MoveRow(buffer, image, Cropped(image, width, top, n, left, bytes), pos, (top + n) * width + left, bytes);
  }

  /** Rows up to bot lie in the buffer. */
  predicate InBuffer(width: nat, bot: nat, size: nat) {
    bot * width <= size
  }

  /** The loop: rows top to bot are moved to the front. */
  method MoveRows(buffer: array<Byte>, width: nat, top: nat, bot: nat, left: nat, bytes: nat) returns (pos: nat)
    requires top <= bot && left + bytes <= width && InBuffer(width, bot, buffer.Length)
    modifies buffer
    ensures Progress(buffer[..], old(buffer[..]), width, top, bot - top, left, bytes, pos)
  {
    hide Progress, InBuffer;
    ghost var image := buffer[..];
    NothingMoved(image, width, top, bot, left, bytes);
    var n := 0;
    pos := 0;
    while n < bot - top
      invariant n <= bot - top && |image| == buffer.Length
      invariant Progress(buffer[..], image, width, top, n, left, bytes, pos)
      decreases bot - top - n
    {
      NextRow(buffer, image, width, top, n, bot, left, bytes, pos);
      pos, n := pos + bytes, n + 1;
    }
  }

  lemma NothingMoved(image: seq<Byte>, width: nat, top: nat, bot: nat, left: nat, bytes: nat)
    requires left + bytes <= width && top <= bot && InBuffer(width, bot, |image|)
    ensures Progress(image, image, width, top, 0, left, bytes, 0)
  {
    Narrower(top, width, width, bot);
    assert Cropped(image, width, top, 0, left, bytes) == [];
    assert Moved(image, image, []);
  }

  lemma RowPartIs(b: seq<Byte>, width: nat, row: nat, left: nat, bytes: nat)
    requires 0 <= row * width && row * width + left + bytes <= |b|
    ensures RowPart(b, width, row, left, bytes) == b[row * width + left..row * width + left + bytes]
  {
  }

  datatype Status = GOOD | INVAL

  /** sanei_magic_crop: the rows of the result are the parts of the rows of the image, although both share the
      buffer, and the parameters describe them. */
  method Crop(p: Params, buffer: array<Byte>, top: nat, bot: nat, left: nat, right: nat)
    returns (status: Status, q: Params)
    requires InImage(p, buffer.Length, top, bot, left, right)
    modifies buffer
    ensures match ColumnsOf(p, left, right)
            case Unsupported => status == INVAL && q == p && buffer[..] == old(buffer[..])
            case Columns(l, bytes, pixels) =>
              && status == GOOD && q == p.(lines := bot - top, pixelsPerLine := pixels, bytesPerLine := bytes)
              && bot * p.bytesPerLine <= buffer.Length
              && Moved(buffer[..], old(buffer[..]), Cropped(old(buffer[..]), p.bytesPerLine, top, bot - top, l, bytes))
  {
    hide Cropped, RowPart;
    var bwidth := p.bytesPerLine;
    var l, bytes, pixels;
    if p.format == Rgb {
      pixels := right - left;
      bytes := pixels * 3;
      l := left * 3;
    } else if p.format == Gray && p.depth == 8 {
      pixels := right - left;
      bytes := right - left;
      l := left;
    } else if p.format == Gray && p.depth == 1 {
      l := left / 8;
      bytes := (right + 7) / 8 - l;
      pixels := bytes * 8;
    } else {
      return INVAL, p;
    }
    Narrower(bot, bwidth, bwidth, p.lines);
    var pos := MoveRows(buffer, bwidth, top, bot, l, bytes);
    return GOOD, p.(lines := bot - top, pixelsPerLine := pixels, bytesPerLine := bytes);
  }

  // ---- Pixels -------------------------------------------------------------------------------

  /** Where a pixel lies in its row. */
  function PlaceOf(p: Params, column: nat): nat {
    if p.format == Rgb then 3 * column else if p.depth == 8 then column else column / 8
  }

  predicate HasPixel(p: Params, b: seq<Byte>, row: nat, column: nat) {
    && p.bytesPerLine >= 0 && 0 <= row * p.bytesPerLine && p.format != OtherFrame
    && row * p.bytesPerLine + PlaceOf(p, column) + (if p.format == Rgb then 3 else 1) <= |b|
  }

  /** The colours of a pixel; or its shade; or its bit, of which the first one in a byte is the most significant. */
  function PixelAt(p: Params, b: seq<Byte>, row: nat, column: nat): seq<int>
    requires HasPixel(p, b, row, column)
  {
    var at := row * p.bytesPerLine + PlaceOf(p, column);
    if p.format == Rgb then [b[at] as int, b[at + 1] as int, b[at + 2] as int]
    else if p.depth == 8 then [b[at] as int]
    else [Bit(b[at], column % 8)]
  }

  function Bit(b: Byte, i: nat): int
    requires i < 8
  {
    b as int / [128, 64, 32, 16, 8, 4, 2, 1][i] % 2
  }

  /** Byte k of row r in the front of the buffer is a byte of the image. */
  lemma CroppedByte(b: seq<Byte>, image: seq<Byte>, width: nat, top: nat, n: nat, left: nat, bytes: nat, r: nat, k: nat)
    requires left + bytes <= width && (top + n) * width <= |image| && r < n && k < bytes
    requires Moved(b, image, Cropped(image, width, top, n, left, bytes))
    ensures 0 <= r * bytes && r * bytes + bytes <= |b|
    ensures 0 <= (top + r) * width && (top + r) * width + width <= |image|
    ensures b[r * bytes + k] == image[(top + r) * width + left + k]
  {
    CroppedRow(image, width, top, n, left, bytes, r);
    hide Cropped;
    var rows := Cropped(image, width, top, n, left, bytes);
    assert rows[r * bytes..r * bytes + bytes][k] == rows[r * bytes + k] == b[r * bytes + k];
  }

  /** The first column that is left; a binary image keeps those that share a byte with it. */
  function Shift(p: Params, left: nat): nat {
    if p.format == Gray && p.depth == 1 then left % 8 else 0
  }

  /** Pixel for pixel: what is at (top + r, left + c) in the image is at (r, c) in the result, where the columns of a
      binary image are counted from the first one of a byte. */
  lemma CroppedPixel(p: Params, q: Params, b: seq<Byte>, image: seq<Byte>, top: nat, bot: nat, left: nat, right: nat,
                     r: nat, c: nat)
    requires InImage(p, |image|, top, bot, left, right) && r < bot - top && c < right - left
    requires var columns := ColumnsOf(p, left, right);
             && columns.Columns? && bot * p.bytesPerLine <= |image|
             && q == p.(lines := bot - top, pixelsPerLine := columns.pixels, bytesPerLine := columns.bytes)
             && Moved(b, image, Cropped(image, p.bytesPerLine, top, bot - top, columns.left, columns.bytes))
    ensures Shift(p, left) + c < q.pixelsPerLine && r < q.lines
    ensures HasPixel(p, image, top + r, left + c) && HasPixel(q, b, r, Shift(p, left) + c)
    ensures PixelAt(q, b, r, Shift(p, left) + c) == PixelAt(p, image, top + r, left + c)
  {
    hide Cropped, Moved;
    var columns, width := ColumnsOf(p, left, right), p.bytesPerLine;
    var k := PlaceOf(q, Shift(p, left) + c);
    assert columns.left + k == PlaceOf(p, left + c);
    CroppedByte(b, image, width, top, bot - top, columns.left, columns.bytes, r, k);
    if p.format == Rgb {
      CroppedByte(b, image, width, top, bot - top, columns.left, columns.bytes, r, k + 1);
      CroppedByte(b, image, width, top, bot - top, columns.left, columns.bytes, r, k + 2);
    }
  }
}
