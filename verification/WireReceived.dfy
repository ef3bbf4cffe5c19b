/** sanei/sanei_wire.c: freeing what any peer has sent, whether or not an encoder would have sent it. */
module WireReceived {
  import opened Machine
  import opened WireSpec

  /** No pointer is taken for NULL when it is freed, and only bytes, words and voids come in arrays whose elements
      may have no size. */
  predicate Plain(c: Codec)
    decreases c
  {
    match c
    case CVoid => true
    case CByte => true
    case CWord => true
    case CString => true
    case CPtr(target, size) => 0 < size && Plain(target)
    case CArray(_, element, size) => Plain(element) && (0 < size || element in {CVoid, CByte, CWord})
    case CPair(first, second) => Plain(first) && Plain(second)
    case CCase(head, _, cases) => Plain(head) && forall k | 0 <= k < |cases| :: Plain(cases[k])
  }

  /** In the bytes of a value, no string holds a NUL before its last byte, and every array looks as long as it is. */
  predicate Balanced(c: Codec, version: int, context: int, b: seq<Byte>, alloc: int)
    decreases c, 0, 0
  {
    match c
    case CVoid => true
    case CByte => true
    case CWord => true
    case CString => |b| >= 4 && (0 < WordOf(b) <= |b| - 4 ==> 0 !in b[4..3 + WordOf(b)])
    case CPtr(target, size) => |b| >= 4 && (WordOf(b) == 0 ==> Balanced(target, version, 0, b[4..], alloc + size))
    case CArray(count, element, size) =>
      |b| >= 4 && (WordOf(b) > 0 ==>
        var len := WordOf(b);
        && AllBalanced(element, version, len, b[4..], alloc + len * size)
        && match DecAll(element, version, len, b[4..], alloc + len * size)
           case Failed(_) => false
           case Got(vs, _, _) => size == 0 || Length(count, size, context, Elems(vs)) == len)
    case CPair(first, second) =>
      Balanced(first, version, 0, b, alloc)
      && (match Dec(first, version, b, alloc)
          case Failed(_) => false
          case Got(_, rest, a) => Balanced(second, version, 0, rest, a))
    case CCase(head, tag, cases) =>
      Balanced(head, version, 0, b, alloc)
      && match Dec(head, version, b, alloc)
         case Failed(_) => false
         case Got(v, rest, a) =>
           var k := CaseOf(tag, version, v);
           k < |cases| && Balanced(cases[k], version, Last(v), rest, a)
  }

  predicate AllBalanced(c: Codec, version: int, n: nat, b: seq<Byte>, alloc: int)
    decreases c, 1, n
  {
    n == 0
    || (Balanced(c, version, 0, b, alloc)
        && match Dec(c, version, b, alloc)
           case Failed(_) => false
           case Got(_, rest, a) => AllBalanced(c, version, n - 1, rest, a))
  }

  // ---- Strings ------------------------------------------------------------------------------

  lemma {:induction false} CStringExactly(b: seq<Byte>)
    ensures |CStringOf(b)| == |b| <==> 0 !in b
  {
    if b != [] {
      CStringExactly(b[1..]);
      assert b == [b[0]] + b[1..];
    }
  }

  /** A received string takes the length that was announced, and gives back the length that it has. */
  lemma ReceivedString(version: int, context: int, b: seq<Byte>, alloc: int)
    requires Dec(CString, version, b, alloc).Got?
    ensures var d := Dec(CString, version, b, alloc);
            && Freed(CString, version, context, d.value) <= d.mem - alloc
            && (Freed(CString, version, context, d.value) == d.mem - alloc
                <==> Balanced(CString, version, context, b, alloc))
  {
    var len := WordOf(b);
    if len != 0 {
      CStringExactly(b[4..3 + len]);
    }
  }

  // ---- Arrays -------------------------------------------------------------------------------

  lemma Product(k: nat, size: nat)
    ensures k * size >= 0 && (k > 0 && size > 0 ==> k * size > 0)
  {
  }

  lemma Shorter(len: int, n: nat, size: nat)
    requires len <= n
    ensures len * size <= n * size
    ensures size > 0 && len < n ==> len * size < n * size
  {
    Product(n - len, size);
    assert n * size == len * size + (n - len) * size;
  }

  /** The elements are freed up to the length that the array looks to have. */
  lemma {:induction false} ReceivedElements(c: Codec, version: int, n: nat, b: seq<Byte>, alloc: int, m: int)
    requires DecAll(c, version, n, b, alloc).Got? && m <= n
    requires AllReadable(c, version, DecAll(c, version, n, b, alloc).value, m)
    ensures var d := DecAll(c, version, n, b, alloc);
            && FreedAll(c, version, d.value, m) <= d.mem - alloc
            && (Plain(c) && m == n ==>
                  (FreedAll(c, version, d.value, m) == d.mem - alloc <==> AllBalanced(c, version, n, b, alloc)))
    decreases c, 1, n
  {
    hide Dec, DecAll, Freed, FreedAll, Balanced, AllBalanced, Readable, AllReadable, Plain;
    if n == 0 {
      NoElements(c, version, b, alloc, m);
    } else {
      var x, y, v, vs := Elements(c, version, n, b, alloc, m);
      if m > 0 {
        ReceivedFrees(c, version, 0, b, alloc);
        ReceivedElements(c, version, n - 1, x.rest, x.mem, m - 1);
      } else {
        Grows(c, version, b, alloc);
        AllGrow(c, version, n - 1, x.rest, x.mem);
        NothingFreed(c, version, DecAll(c, version, n, b, alloc).value, m);
      }
    }
  }

  lemma NothingFreed(c: Codec, version: int, vs: seq<Value>, m: int)
    requires m <= 0
    ensures FreedAll(c, version, vs, m) == 0
  {
  }

  lemma NoElements(c: Codec, version: int, b: seq<Byte>, alloc: int, m: int)
    requires m <= 0
    ensures var d := DecAll(c, version, 0, b, alloc);
            d == Got([], b, alloc) && FreedAll(c, version, d.value, m) == 0
    ensures AllBalanced(c, version, 0, b, alloc)
  {
  }

  /** The first element that was received, and the others. */
  lemma Elements(c: Codec, version: int, n: nat, b: seq<Byte>, alloc: int, m: int)
    returns (x: Decoded<Value>, y: Decoded<seq<Value>>, v: Value, vs: seq<Value>)
    requires n > 0 && DecAll(c, version, n, b, alloc).Got?
    requires AllReadable(c, version, DecAll(c, version, n, b, alloc).value, m)
    ensures x == Dec(c, version, b, alloc) && x.Got? && x.value == v
    ensures y == DecAll(c, version, n - 1, x.rest, x.mem) && y.Got? && y.value == vs
    ensures DecAll(c, version, n, b, alloc) == Got([v] + vs, y.rest, y.mem)
    ensures m > 0 ==> Readable(c, version, 0, v) && AllReadable(c, version, vs, m - 1)
    ensures m > 0 ==> FreedAll(c, version, [v] + vs, m) == Freed(c, version, 0, v) + FreedAll(c, version, vs, m - 1)
    ensures AllBalanced(c, version, n, b, alloc)
       <==> Balanced(c, version, 0, b, alloc) && AllBalanced(c, version, n - 1, x.rest, x.mem)
  {
    hide Dec, DecAll, Freed, Balanced, Readable;
    DecCons(c, version, n, b, alloc);
    x := Dec(c, version, b, alloc);
    y := DecAll(c, version, n - 1, x.rest, x.mem);
    v, vs := x.value, y.value;
    assert ([v] + vs)[1..] == vs;
  }

  /** Bytes, words and voids take no memory of their own. */
  lemma {:induction false} FlatElements(c: Codec, version: int, n: nat, b: seq<Byte>, alloc: int, m: int)
    requires c in {CVoid, CByte, CWord} && DecAll(c, version, n, b, alloc).Got?
    ensures var d := DecAll(c, version, n, b, alloc); d.mem == alloc && FreedAll(c, version, d.value, m) == 0
    ensures AllBalanced(c, version, n, b, alloc)
    decreases n
  {
    if n > 0 {
      var x := Dec(c, version, b, alloc);
      FlatElements(c, version, n - 1, x.rest, x.mem, m - 1);
    }
  }

  /** Receiving does not give memory back. */
  lemma {:induction false} Grows(c: Codec, version: int, b: seq<Byte>, alloc: int)
    requires Dec(c, version, b, alloc).Got?
    ensures Dec(c, version, b, alloc).mem >= alloc
    decreases c, 0, 0
  {
    match c
    case CVoid =>
    case CByte =>
    case CWord =>
    case CString =>
    case CPtr(target, size) =>
      if WordOf(b) == 0 {
        Grows(target, version, b[4..], alloc + size);
      }
    case CArray(_, element, size) =>
      if WordOf(b) != 0 {
        Shorter(0, WordOf(b), size);
        AllGrow(element, version, WordOf(b), b[4..], alloc + WordOf(b) * size);
      }
    case CPair(first, second) =>
      Grows(first, version, b, alloc);
      var d := Dec(first, version, b, alloc);
      Grows(second, version, d.rest, d.mem);
    case CCase(head, tag, cases) =>
      Grows(head, version, b, alloc);
      var d := Dec(head, version, b, alloc);
      Grows(cases[CaseOf(tag, version, d.value)], version, d.rest, d.mem);
  }

  lemma {:induction false} AllGrow(c: Codec, version: int, n: nat, b: seq<Byte>, alloc: int)
    requires DecAll(c, version, n, b, alloc).Got?
    ensures DecAll(c, version, n, b, alloc).mem >= alloc
    decreases c, 1, n
  {
    if n > 0 {
      Grows(c, version, b, alloc);
      var d := Dec(c, version, b, alloc);
      AllGrow(c, version, n - 1, d.rest, d.mem);
    }
  }

  // ---- All values ---------------------------------------------------------------------------

  lemma {:induction false} ReceivedPtr(c: Codec, version: int, context: int, b: seq<Byte>, alloc: int)
    requires c.CPtr?
    requires Dec(c, version, b, alloc).Got? && Readable(c, version, context, Dec(c, version, b, alloc).value)
    ensures var d := Dec(c, version, b, alloc);
            && Freed(c, version, context, d.value) <= d.mem - alloc
            && (Plain(c) ==>
                  (Freed(c, version, context, d.value) == d.mem - alloc <==> Balanced(c, version, context, b, alloc)))
    decreases c, 0, 0
  {
    DecPtr(c.target, c.size, version, b, alloc);
    if WordOf(b) == 0 {
      FreedPtr(c.target, c.size, version, context, Dec(c, version, b, alloc).value);
      if c.size == 0 {
        Grows(c.target, version, b[4..], alloc);
      } else {
        ReceivedFrees(c.target, version, 0, b[4..], alloc + c.size);
      }
    }
    hide Dec, Freed, Readable, WordOf;
  }

  lemma {:induction false} ReceivedArray(c: Codec, version: int, context: int, b: seq<Byte>, alloc: int)
    requires c.CArray?
    requires Dec(c, version, b, alloc).Got? && Readable(c, version, context, Dec(c, version, b, alloc).value)
    ensures var d := Dec(c, version, b, alloc);
            && Freed(c, version, context, d.value) <= d.mem - alloc
            && (Plain(c) ==>
                  (Freed(c, version, context, d.value) == d.mem - alloc <==> Balanced(c, version, context, b, alloc)))
    decreases c, 0, 0
  {
    hide Dec, DecAll, Freed, FreedAll, Readable, AllReadable, WordOf, Length, Balanced, AllBalanced, Plain;
    GotArray(c, version, b, alloc);
    if WordOf(b) == 0 {
      NoArray(c, version, context, b, alloc);
    } else {
      var len, m, taken, given, vs := ArrayParts(c, version, context, b, alloc);
      PlainArray(c);
      ReceivedElements(c.element, version, len, b[4..], alloc + taken, m);
      if c.size == 0 && Plain(c) {
        FlatElements(c.element, version, len, b[4..], alloc + taken, m);
      }
    }
  }

  lemma GotArray(c: Codec, version: int, b: seq<Byte>, alloc: int)
    requires c.CArray? && Dec(c, version, b, alloc).Got?
    ensures |b| >= 4 && WordOf(b) >= 0
  {
    hide WordOf, DecAll;
  }

  lemma NoArray(c: Codec, version: int, context: int, b: seq<Byte>, alloc: int)
    requires c.CArray? && |b| >= 4 && WordOf(b) == 0
    ensures Dec(c, version, b, alloc) == Got(Null, b[4..], alloc) && Freed(c, version, context, Null) == 0
    ensures Balanced(c, version, context, b, alloc)
  {
    hide WordOf, DecAll;
  }

  lemma PlainArray(c: Codec)
    requires c.CArray?
    ensures Plain(c) <==> Plain(c.element) && (0 < c.size || c.element in {CVoid, CByte, CWord})
  {
  }

  /** A received array: its length, the one that it looks to have, and the bytes for so many elements. */
  lemma ArrayParts(c: Codec, version: int, context: int, b: seq<Byte>, alloc: int)
    returns (len: nat, m: int, taken: int, given: int, vs: seq<Value>)
    requires c.CArray? && Dec(c, version, b, alloc).Got? && |b| >= 4 && WordOf(b) != 0
    requires Readable(c, version, context, Dec(c, version, b, alloc).value)
    ensures len > 0 && m <= len && given <= taken && (m == len || c.size == 0 ==> given == taken)
    ensures c.size > 0 && m < len ==> given < taken
    ensures var d := Dec(c, version, b, alloc);
            && DecAll(c.element, version, len, b[4..], alloc + taken) == Got(vs, d.rest, d.mem)
            && AllReadable(c.element, version, vs, m)
            && Freed(c, version, context, d.value) == given + FreedAll(c.element, version, vs, m)
    ensures Balanced(c, version, context, b, alloc) <==>
              AllBalanced(c.element, version, len, b[4..], alloc + taken) && (c.size == 0 || m == len)
  {
    hide Dec, DecAll, Freed, FreedAll, Readable, AllReadable, WordOf, Length, Balanced, AllBalanced, Plain;
    GotArray(c, version, b, alloc);
    DecArray(c.count, c.element, c.size, version, b, alloc);
    var d := Dec(c, version, b, alloc);
    FreedArray(c.count, c.element, c.size, version, context, d.value);
    BalancedArray(c, version, context, b, alloc);
    len, vs := WordOf(b), d.value.vs;
    m := Length(c.count, c.size, context, d.value);
    taken, given := len * c.size, m * c.size;
    Shorter(m, len, c.size);
    if c.size == 0 {
      NoSize(m, len, c.size);
    }
  }

  lemma NoSize(m: int, len: nat, size: nat)
    requires size == 0
    ensures m * size == len * size == 0
  {
  }

  lemma BalancedArray(c: Codec, version: int, context: int, b: seq<Byte>, alloc: int)
    requires c.CArray? && |b| >= 4 && WordOf(b) >= 0
    ensures Balanced(c, version, context, b, alloc)
         == (WordOf(b) > 0 ==>
               var len := WordOf(b);
               var from := alloc + len * c.size;
               && AllBalanced(c.element, version, len, b[4..], from)
               && match DecAll(c.element, version, len, b[4..], from)
                  case Failed(_) => false
                  case Got(vs, _, _) => c.size == 0 || Length(c.count, c.size, context, Elems(vs)) == len)
  {
    hide WordOf, DecAll, AllBalanced, Length;
  }

  lemma {:induction false} ReceivedPair(c: Codec, version: int, context: int, b: seq<Byte>, alloc: int)
    requires c.CPair?
    requires Dec(c, version, b, alloc).Got? && Readable(c, version, context, Dec(c, version, b, alloc).value)
    ensures var d := Dec(c, version, b, alloc);
            && Freed(c, version, context, d.value) <= d.mem - alloc
            && (Plain(c) ==>
                  (Freed(c, version, context, d.value) == d.mem - alloc <==> Balanced(c, version, context, b, alloc)))
    decreases c, 0, 0
  {
    DecPair(c.first, c.second, version, b, alloc);
    FreedPair(c.first, c.second, version, context, Dec(c, version, b, alloc).value);
    var d := Dec(c.first, version, b, alloc);
    ReceivedFrees(c.first, version, 0, b, alloc);
    ReceivedFrees(c.second, version, 0, d.rest, d.mem);
    hide Dec, Freed, Readable;
  }

  lemma {:induction false} ReceivedCase(c: Codec, version: int, context: int, b: seq<Byte>, alloc: int)
    requires c.CCase?
    requires Dec(c, version, b, alloc).Got? && Readable(c, version, context, Dec(c, version, b, alloc).value)
    ensures var d := Dec(c, version, b, alloc);
            && Freed(c, version, context, d.value) <= d.mem - alloc
            && (Plain(c) ==>
                  (Freed(c, version, context, d.value) == d.mem - alloc <==> Balanced(c, version, context, b, alloc)))
    decreases c, 0, 0
  {
    DecCase(c.head, c.tag, c.cases, version, b, alloc);
    FreedCase(c.head, c.tag, c.cases, version, context, Dec(c, version, b, alloc).value);
    var d := Dec(c.head, version, b, alloc);
    var k := CaseOf(c.tag, version, d.value);
    ReceivedFrees(c.head, version, 0, b, alloc);
    ReceivedFrees(c.cases[k], version, Last(d.value), d.rest, d.mem);
    hide Dec, Freed, Readable, CaseOf, Last;
  }

  /** Whatever a peer has sent, if no array in it looks longer than it is: freeing it gives back at most the memory that
      receiving it took, and all of it exactly if no string holds a NUL and every array looks as long as it is. */
  lemma {:induction false} ReceivedFrees(c: Codec, version: int, context: int, b: seq<Byte>, alloc: int)
    requires Dec(c, version, b, alloc).Got? && Readable(c, version, context, Dec(c, version, b, alloc).value)
    ensures var d := Dec(c, version, b, alloc);
            && Freed(c, version, context, d.value) <= d.mem - alloc
            && (Plain(c) ==>
                  (Freed(c, version, context, d.value) == d.mem - alloc <==> Balanced(c, version, context, b, alloc)))
    decreases c, 0, 1
  {
    match c
    case CVoid =>
    case CByte =>
    case CWord =>
    case CString => ReceivedString(version, context, b, alloc);
    case CPtr(_, _) => ReceivedPtr(c, version, context, b, alloc);
    case CArray(_, _, _) => ReceivedArray(c, version, context, b, alloc);
    case CPair(_, _) => ReceivedPair(c, version, context, b, alloc);
    case CCase(_, _, _) => ReceivedCase(c, version, context, b, alloc);
  }

  /** A string with a NUL in it: "A" takes three bytes and gives back two. */
  lemma StringLosesMemory()
    ensures var d := Dec(CString, 3, [0, 0, 0, 3, 65, 0, 0], 0);
            d == Got(Str([65]), [], 3) && Freed(CString, 3, 0, d.value) == 2
  {
    var b: seq<Byte> := [0, 0, 0, 3, 65, 0, 0];
    var text: seq<Byte> := [65, 0];
    assert b[4..6] == text && text[1..] == [0] && b[7..] == [];
    assert CStringOf(text) == [65] + CStringOf(text[1..]) == [65];
  }

  /** A small word, and what follows it. */
  lemma SmallWord(x: Byte, rest: seq<Byte>)
    requires x < 128
    ensures WordOf([0, 0, 0, x] + rest) == x as int && ([0, 0, 0, x] + rest)[4..] == rest
  {
  }

  lemma DecSmallWord(x: Byte, rest: seq<Byte>, alloc: int)
    requires x < 128
    ensures Dec(CWord, 3, [0, 0, 0, x] + rest, alloc) == Got(Num(x as int), rest, alloc)
  {
    SmallWord(x, rest);
  }

  lemma DecNone(c: Codec, b: seq<Byte>, alloc: int)
    ensures DecAll(c, 3, 0, b, alloc) == Got([], b, alloc)
  {
  }

  lemma NotRefused(len: int, size: nat, alloc: int)
    requires 0 <= len <= 16 && size <= 16 && 0 <= alloc <= 16
    ensures !Refused(len, size, alloc)
  {
    assert 0 <= len * size <= 16 * 16;
  }

  /** A list of three words whose first word counts only one other: of twelve bytes eight come back. */
  lemma WordListLosesMemory()
    ensures var c, b := CArray(SelfCounted, CWord, 4), [0, 0, 0, 3] + [0, 0, 0, 1] + [0, 0, 0, 7] + [0, 0, 0, 8];
            var d := Dec(c, 3, b, 0);
            d == Got(Elems([Num(1), Num(7), Num(8)]), [], 12) && Readable(c, 3, 0, d.value)
            && Freed(c, 3, 0, d.value) == 8
  {
    hide Dec, DecAll, WordOf, Refused, Freed, FreedAll, Readable, AllReadable;
    var b3: seq<Byte> := [0, 0, 0, 8] + [];
    var b2: seq<Byte> := [0, 0, 0, 7] + b3;
    var b1: seq<Byte> := [0, 0, 0, 1] + b2;
    var b: seq<Byte> := [0, 0, 0, 3] + b1;
    assert b == [0, 0, 0, 3] + [0, 0, 0, 1] + [0, 0, 0, 7] + [0, 0, 0, 8];
    SmallWord(3, b1);
    NotRefused(3, 4, 0);
    DecArray(SelfCounted, CWord, 4, 3, b, 0);
    DecCons(CWord, 3, 3, b1, 12);
    DecSmallWord(1, b2, 12);
    DecCons(CWord, 3, 2, b2, 12);
    DecSmallWord(7, b3, 12);
    DecCons(CWord, 3, 1, b3, 12);
    DecSmallWord(8, [], 12);
    DecNone(CWord, [], 12);
    var vs := [Num(1), Num(7), Num(8)];
    assert [Num(1)] + ([Num(7)] + ([Num(8)] + [])) == vs;
    FreedWords(vs, 2);
    FreedList(SelfCounted, CWord, 4, vs, 2);
  }

  lemma FreedWords(vs: seq<Value>, n: int)
    requires forall v | v in vs :: v.Num? && IsWord(v.n)
    ensures FreedAll(CWord, 3, vs, n) == 0 && AllReadable(CWord, 3, vs, n)
  {
  }

  lemma FreedList(count: Count, element: Codec, size: nat, vs: seq<Value>, len: int)
    requires Length(count, size, 0, Elems(vs)) == len <= |vs| && AllReadable(element, 3, vs, len)
    ensures var c := CArray(count, element, size);
            Readable(c, 3, 0, Elems(vs)) && Freed(c, 3, 0, Elems(vs)) == len * size + FreedAll(element, 3, vs, len)
  {
    hide Length, FreedAll, AllReadable;
  }

  lemma DecShortString(x: Byte, rest: seq<Byte>, alloc: int)
    requires x != 0 && 0 <= alloc <= 16
    ensures Dec(CString, 3, [0, 0, 0, 2] + ([x, 0] + rest), alloc) == Got(Str([x]), rest, alloc + 2)
  {
    var b := [0, 0, 0, 2] + ([x, 0] + rest);
    SmallWord(2, [x, 0] + rest);
    NotRefused(2, 1, alloc);
    hide WordOf, Refused;
    var text := [x];
    assert b[4..5] == text && b[6..] == rest && text[1..] == [];
    assert CStringOf(text) == [x] + CStringOf(text[1..]) == text;
  }

  lemma DecNoString(rest: seq<Byte>, alloc: int)
    ensures Dec(CString, 3, [0, 0, 0, 0] + rest, alloc) == Got(Null, rest, alloc)
  {
    SmallWord(0, rest);
  }

  /** A list of strings with a NULL too early: neither the place behind it nor the string there comes back. */
  lemma StringListLosesMemory()
    ensures var c, b := CArray(Terminated(false), CString, 8), [0, 0, 0, 2] + [0, 0, 0, 0] + [0, 0, 0, 2] + [65, 0];
            var d := Dec(c, 3, b, 0);
            d == Got(Elems([Null, Str([65])]), [], 18) && Readable(c, 3, 0, d.value) && Freed(c, 3, 0, d.value) == 8
  {
    hide Dec, DecAll, WordOf, Refused, CStringOf, Freed, FreedAll, Readable, AllReadable;
    var b2: seq<Byte> := [0, 0, 0, 2] + ([65, 0] + []);
    var b1: seq<Byte> := [0, 0, 0, 0] + b2;
    var b: seq<Byte> := [0, 0, 0, 2] + b1;
    assert b == [0, 0, 0, 2] + [0, 0, 0, 0] + [0, 0, 0, 2] + [65, 0];
    SmallWord(2, b1);
    NotRefused(2, 8, 0);
    DecArray(Terminated(false), CString, 8, 3, b, 0);
    DecCons(CString, 3, 2, b1, 16);
    DecNoString(b2, 16);
    DecCons(CString, 3, 1, b2, 16);
    DecShortString(65, [], 16);
    DecNone(CString, [], 18);
    var vs := [Null, Str([65])];
    assert [Null] + ([Str([65])] + []) == vs;
    FreedNull(vs);
    NullFirst(vs);
    FreedList(Terminated(false), CString, 8, vs, 1);
  }

  lemma NullFirst(vs: seq<Value>)
    requires vs != [] && vs[0] == Null
    ensures Length(Terminated(false), 8, 0, Elems(vs)) == 1
  {
  }

  lemma FreedNull(vs: seq<Value>)
    requires vs != [] && vs[0] == Null
    ensures FreedAll(CString, 3, vs, 1) == 0 && AllReadable(CString, 3, vs, 1)
  {
    assert FreedAll(CString, 3, vs[1..], 0) == 0 && AllReadable(CString, 3, vs[1..], 0);
    assert Readable(CString, 3, 0, vs[0]) && Freed(CString, 3, 0, vs[0]) == 0;
  }
}
