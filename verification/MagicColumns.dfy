/** sanei/sanei_magic.c: what sanei_magic_getTransY finds in a column that has one colour, or two with an edge between
    them. */
module MagicColumns {
  import opened Machine
  import opened MagicEdges

  /** The line at distance u from where the scan begins, and the distance of line u. */
  function LineAt(img: Image, top: bool, u: int): int {
    if top then u else img.height - 1 - u
  }

  /** A column with pixels of value a up to distance s from the beginning of the scan, and of value b from there on. */
  ghost predicate Edge(img: Image, column: nat, top: bool, s: nat, a: nat, b: nat)
    requires img.Valid() && column < img.width
  {
    forall line | 0 <= line < img.height ::
      img.Pixel(line, column) == if (if top then line < s else line > img.height - 1 - s) then a else b
  }

  lemma {:induction false} SumIsSmall(img: Image, at: nat, n: nat)
    requires at + n <= |img.buffer|
    ensures img.Sum(at, n) <= 255 * n
  {
    if n > 0 {
      SumIsSmall(img, at, n - 1);
    }
  }

  lemma PixelIsSmall(img: Image, line: nat, column: nat)
    requires img.Valid() && line < img.height && column < img.width
    ensures img.Pixel(line, column) <= 255 * img.depth
  {
    img.InBuffer(line, column);
    SumIsSmall(img, (line * img.width + column) * img.depth, img.depth);
  }

  /** A pixel is a byte of its row, or the sum of three. */
  lemma PixelBytes(img: Image, line: nat, column: nat)
    requires img.Valid() && line < img.height && column < img.width
    ensures 0 <= line * img.width && (line * img.width + column) * img.depth + img.depth <= |img.buffer|
    ensures img.depth == 1 ==> img.Pixel(line, column) == img.buffer[line * img.width + column] as nat
    ensures img.depth == 3 ==>
              var at := 3 * (line * img.width + column);
              img.Pixel(line, column) == img.buffer[at] as nat + img.buffer[at + 1] as nat + img.buffer[at + 2] as nat
  {
    img.InBuffer(line, column);
    Product(line, img.width);
    var at := (line * img.width + column) * img.depth;
    SumOfBytes(img, at);
    hide Image.Sum;
    assert img.Pixel(line, column) == img.Sum(at, img.depth);
    if img.depth == 3 {
      assert at == 3 * (line * img.width + column);
    } else if img.depth == 1 {
      assert at == line * img.width + column;
    }
  }

  lemma SumOfBytes(img: Image, at: nat)
    ensures at + 1 <= |img.buffer| ==> img.Sum(at, 1) == img.buffer[at] as nat
    ensures at + 3 <= |img.buffer| ==>
              img.Sum(at, 3) == img.buffer[at] as nat + img.buffer[at + 1] as nat + img.buffer[at + 2] as nat
  {
    if at + 1 <= |img.buffer| {
      assert img.Sum(at, 0) == 0;
      if at + 3 <= |img.buffer| {
        assert img.Sum(at, 2) == img.Sum(at, 1) + img.buffer[at + 1] as nat;
      }
    }
  }

  // ---- Windows over an edge -----------------------------------------------------------------

  /** How many of n lines, t lines behind distance u, are beyond the edge. */
  function Beyond(u: int, s: int, t: int, n: nat): (k: nat)
    ensures k <= n
  {
    if u - s + 1 - t <= 0 then 0 else if u - s + 1 - t >= n then n else u - s + 1 - t
  }

  lemma OneMore(n: nat, k: int, a: int, d: int)
    ensures (n - 1) * a + k * d + a == n * a + k * d
    ensures (n - 1) * a + (k - 1) * d + a + d == n * a + k * d
  {
    assert n * a == (n - 1) * a + a && k * d == (k - 1) * d + d;
  }

  lemma {:induction false} EdgeWindow(img: Image, column: nat, top: bool, s: nat, a: nat, b: nat, u: nat, t: nat,
                                         n: nat)
    requires img.Valid() && column < img.width && Edge(img, column, top, s, a, b) && 0 < s && u < img.height
    ensures img.Window(column, top, LineAt(img, top, u), t, n) == n * a + Beyond(u, s, t, n) * (b - a)
  {
    hide Image.Pixel;
    if n > 0 {
      EdgeWindow(img, column, top, s, a, b, u, t, n - 1);
      var k := Beyond(u, s, t, n);
      assert img.Before(column, top, LineAt(img, top, u), t + n - 1) == if u - (t + n - 1) < s then a else b;
      assert Beyond(u, s, t, n - 1) == if u - (t + n - 1) < s then k else k - 1;
      OneMore(n, k, a, b - a);
    }
  }

  /** The edge is seen when m of the last nine lines are beyond it: pixels count from 0 to 255, and the threshold is 50
      for each of them, less for a light colour. */
  predicate SeenAfter(m: nat, a: nat, b: nat, depth: nat) {
    m * (if a < b then b - a else a - b) > 450 * depth - (9 * a + m * (b - a)) * 40 / 255
  }

  lemma EdgeWindows(img: Image, column: nat, top: bool, s: nat, a: nat, b: nat, u: nat)
    requires img.Valid() && column < img.width && Edge(img, column, top, s, a, b) && 0 < s && u < img.height
    ensures var j := LineAt(img, top, u);
            && img.Near(column, top, j) == 9 * a + Beyond(u, s, 0, 9) * (b - a)
            && img.Far(column, top, j) == 9 * a + Beyond(u, s, 9, 9) * (b - a)
  {
    hide Image.Pixel, Image.Window, Edge;
    EdgeWindow(img, column, top, s, a, b, u, 0, 9);
    EdgeWindow(img, column, top, s, a, b, u, 9, 9);
  }

  lemma Size(k: nat, a: nat, b: nat)
    ensures (if k * (b - a) < 0 then -(k * (b - a)) else k * (b - a)) == k * if a < b then b - a else a - b
  {
    assert k * (a - b) == -(k * (b - a));
    Larger(k, 0, if a < b then b - a else a - b);
  }

  lemma Larger(k: int, l: int, d: int)
    requires 0 <= l <= k && 0 <= d
    ensures 0 <= (k - l) * d <= k * d
  {
  }

  /** None of the last eighteen lines is beyond the edge. */
  lemma NotYet(a: nat, near: int, far: int, depth: nat)
    requires near == far == 9 * a && a <= 255 * depth
    ensures !Significant(near, far, depth)
  {
  }

  /** k of the last nine lines are, and none before them. */
  lemma Now(k: nat, a: nat, b: nat, near: int, far: int, depth: nat)
    requires near == 9 * a + k * (b - a) && far == 9 * a
    ensures Significant(near, far, depth) == SeenAfter(k, a, b, depth)
  {
    Size(k, a, b);
  }

  /** All of the last nine lines are, and l before them. */
  lemma Late(l: nat, a: nat, b: nat, near: int, far: int, depth: nat)
    requires l <= 9 && near == 9 * a + 9 * (b - a) && far == 9 * a + l * (b - a)
    ensures Significant(near, far, depth) ==> SeenAfter(9, a, b, depth)
  {
    Size(9, a, b);
    Size(l, a, b);
    Larger(9, l, if a < b then b - a else a - b);
  }

  /** The colour changes m lines beyond the edge exactly if it is seen there; later than nine lines beyond it, only if
      it was seen before. */
  lemma ChangesAt(img: Image, column: nat, top: bool, s: nat, a: nat, b: nat, u: nat)
    requires img.Valid() && column < img.width && Edge(img, column, top, s, a, b) && 0 < s && u < img.height
    ensures var m, changes := u - s + 1, img.Changes(column, top, LineAt(img, top, u));
            if m <= 0 then !changes
            else if m <= 9 then changes == SeenAfter(m, a, b, img.depth)
            else changes ==> SeenAfter(9, a, b, img.depth)
  {
    hide Image.Pixel, Image.Near, Image.Far, Edge, Significant, SeenAfter;
    var j := LineAt(img, top, u);
    EdgeWindows(img, column, top, s, a, b, u);
    FirstIsSmall(img, column, top, s, a, b);
    var near, far, k, l := img.Near(column, top, j), img.Far(column, top, j), Beyond(u, s, 0, 9), Beyond(u, s, 9, 9);
    if k == 0 {
      NotYet(a, near, far, img.depth);
    } else if l == 0 {
      Now(k, a, b, near, far, img.depth);
    } else {
      Late(l, a, b, near, far, img.depth);
    }
  }

  lemma FirstIsSmall(img: Image, column: nat, top: bool, s: nat, a: nat, b: nat)
    requires img.Valid() && column < img.width && Edge(img, column, top, s, a, b) && 0 < s
    ensures a <= 255 * img.depth
  {
    hide Image.Pixel;
    PixelIsSmall(img, img.First(top), column);
  }

  // ---- Where the edge is found --------------------------------------------------------------

  /** With one colour up to distance s and another from there on, the transition is where the edge is first seen, up to
      nine lines beyond it. */
  lemma EdgeFound(img: Image, column: nat, top: bool, s: nat, a: nat, b: nat, r: int, m: nat)
    requires img.Valid() && column < img.width && Edge(img, column, top, s, a, b) && 0 < s
    requires img.IsTransition(column, top, r)
    requires 0 < m <= 9 && s + m - 1 < img.height && SeenAfter(m, a, b, img.depth)
    requires forall k | 0 < k < m :: !SeenAfter(k, a, b, img.depth)
    ensures r == LineAt(img, top, s + m - 1)
  {
    hide Image.Changes, Edge, SeenAfter;
    ChangesAt(img, column, top, s, a, b, s + m - 1);
    assert img.Changes(column, top, LineAt(img, top, s + m - 1));
    if r != img.End(top) {
      ChangesAt(img, column, top, s, a, b, LineAt(img, top, r));
    }
  }

  /** If it is not seen within nine lines, or the image ends before that, there is none. */
  lemma EdgeNotFound(img: Image, column: nat, top: bool, s: nat, a: nat, b: nat, r: int)
    requires img.Valid() && column < img.width && Edge(img, column, top, s, a, b) && 0 < s
    requires img.IsTransition(column, top, r)
    requires forall k | 0 < k <= 9 && s + k - 1 < img.height :: !SeenAfter(k, a, b, img.depth)
    ensures r == img.End(top)
  {
    hide Image.Changes, Edge, SeenAfter;
    if r != img.End(top) {
      ChangesAt(img, column, top, s, a, b, LineAt(img, top, r));
    }
  }

  /** A column of one colour has no transition. */
  lemma OneColour(img: Image, column: nat, top: bool, v: nat, r: int)
    requires img.Valid() && column < img.width && img.IsTransition(column, top, r)
    requires forall line | 0 <= line < img.height :: img.Pixel(line, column) == v
    ensures r == img.End(top)
  {
    hide Image.Pixel, Image.IsTransition;
    PixelIsSmall(img, 0, column);
    assert Edge(img, column, top, 1, v, v);
    assert forall k: nat | 0 < k <= 9 :: !SeenAfter(k, v, v, img.depth);
    EdgeNotFound(img, column, top, 1, v, v, r);
  }

  /** From white to black, the edge of a gray image is found in its first black line. */
  lemma WhiteToBlack(img: Image, column: nat, top: bool, s: nat, r: int)
    requires img.Valid() && column < img.width && img.depth == 1 && 0 < s < img.height
    requires Edge(img, column, top, s, 255, 0) && img.IsTransition(column, top, r)
    ensures r == LineAt(img, top, s)
  {
    hide Edge, Image.IsTransition;
    assert SeenAfter(1, 255, 0, 1);
    EdgeFound(img, column, top, s, 255, 0, r, 1);
  }

  /** From black to white, in its second white line. */
  lemma BlackToWhite(img: Image, column: nat, top: bool, s: nat, r: int)
    requires img.Valid() && column < img.width && img.depth == 1 && 0 < s < img.height
    requires Edge(img, column, top, s, 0, 255) && img.IsTransition(column, top, r)
    ensures r == if s + 1 < img.height then LineAt(img, top, s + 1) else img.End(top)
  {
    hide Edge, Image.IsTransition;
    assert !SeenAfter(1, 0, 255, 1) && SeenAfter(2, 0, 255, 1);
    if s + 1 < img.height {
      EdgeFound(img, column, top, s, 0, 255, r, 2);
    } else {
      EdgeNotFound(img, column, top, s, 0, 255, r);
    }
  }

  // ---- Whole images -------------------------------------------------------------------------

  /** The transition in the other column is less than half an inch away. */
  predicate Close(buff: seq<int>, i: nat, j: nat, dpi: nat)
    requires i < |buff| && j < |buff|
  {
    -(dpi / 2) < buff[j] - buff[i] < dpi / 2
  }

  /** A transition is kept exactly if it is one of the last seven, or close to two of the next seven. */
  lemma KeptExactly(buff: seq<int>, dpi: nat, lastLine: int, i: nat)
    requires i < |buff| && buff[i] != lastLine
    ensures Filtered(buff, dpi, lastLine)[i] == buff[i] <==>
              i + 7 >= |buff|
              || exists j, k | i < j < k <= i + 7 :: Close(buff, i, j, dpi) && Close(buff, i, k, dpi)
  {
    FilteredAt(buff, dpi, lastLine, i);
    if i + 7 < |buff| {
      CloseOnes(buff, i, 7, dpi);
    }
  }

  lemma {:induction false} CloseOnes(buff: seq<int>, i: nat, n: nat, dpi: nat)
    requires i + n < |buff|
    ensures Neighbours(buff, i, n, dpi) >= 1 <==> exists j | i < j <= i + n :: Close(buff, i, j, dpi)
    ensures Neighbours(buff, i, n, dpi) >= 2 <==>
              exists j, k | i < j < k <= i + n :: Close(buff, i, j, dpi) && Close(buff, i, k, dpi)
  {
    if n > 0 {
      CloseOnes(buff, i, n - 1, dpi);
      assert Close(buff, i, i + n, dpi) <==>
               Neighbours(buff, i, n, dpi) == Neighbours(buff, i, n - 1, dpi) + 1;
    }
  }

  /** A straight edge from white to black is found in every column. */
  method StraightEdge(img: Image, dpi: nat, top: bool, s: nat) returns (buff: array<int>)
    requires img.Valid() && img.depth == 1 && 0 < s < img.height && dpi >= 2
    requires forall c | 0 <= c < img.width :: Edge(img, c, top, s, 255, 0)
    ensures buff.Length == img.width && forall c | 0 <= c < img.width :: buff[c] == LineAt(img, top, s)
  {
    hide Edge, Image.IsTransition, Filtered;
    ghost var transitions;
    buff, transitions := GetTransY(img, dpi, top);
    forall c | 0 <= c < img.width ensures transitions[c] == LineAt(img, top, s) {
      WhiteToBlack(img, c, top, s, transitions[c]);
    }
    forall c | 0 <= c < img.width ensures Filtered(transitions, dpi, img.End(top))[c] == LineAt(img, top, s) {
      if c + 7 < img.width {
        assert Close(transitions, c, c + 1, dpi) && Close(transitions, c, c + 2, dpi);
      }
      KeptExactly(transitions, dpi, img.End(top), c);
    }
  }
}
