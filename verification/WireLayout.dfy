/** The bytes that sanei/sanei_codec_bin.c and sanei/sanei_wire.c put on the wire, as another implementation of the
    protocol would have to read them. */
module WireLayout {
  import opened Machine
  import opened WireSpec
  import opened WireRoundTrip
  import opened WireMessages
  import opened WireIo
  import opened WireTransfer
  import opened WireCall

  // ---- The order of the bytes of a word -----------------------------------------------------

  /** The first byte in which they differ is smaller in a. */
  ghost predicate SmallerBytes(a: seq<Byte>, b: seq<Byte>) {
    exists k | 0 <= k < |a| && k < |b| :: a[..k] == b[..k] && a[k] < b[k]
  }

  /** The number that four bytes make, the first one being the most significant. */
  function Big(a: Byte, b: Byte, c: Byte, d: Byte): (n: nat)
    ensures n < TWO_TO_32
  {
    ((a as nat * 256 + b as nat) * 256 + c as nat) * 256 + d as nat
  }

  lemma BigOrder(a: Byte, b: Byte, c: Byte, d: Byte, e: Byte, f: Byte, g: Byte, h: Byte)
    ensures Big(a, b, c, d) < Big(e, f, g, h) <==>
              a < e || (a == e && (b < f || (b == f && (c < g || (c == g && d < h)))))
  {
  }

  lemma SmallerIs(x: seq<Byte>, y: seq<Byte>)
    requires |x| == |y| == 4
    ensures SmallerBytes(x, y) <==>
              || x[0] < y[0] || (x[0] == y[0] && x[1] < y[1]) || (x[0] == y[0] && x[1] == y[1] && x[2] < y[2])
              || (x[0] == y[0] && x[1] == y[1] && x[2] == y[2] && x[3] < y[3])
  {
    if SmallerBytes(x, y) {
      var k :| 0 <= k < 4 && x[..k] == y[..k] && x[k] < y[k];
      assert forall j | 0 <= j < k :: x[j] == x[..k][j] && y[j] == y[..k][j];
    } else {
      assert forall k | 0 <= k < 4 && x[..k] == y[..k] :: x[k] >= y[k];
      assert x[..0] == y[..0];
      assert x[0] == y[0] ==> x[..1] == y[..1];
      assert x[0] == y[0] && x[1] == y[1] ==> x[..2] == y[..2];
      assert x[0] == y[0] && x[1] == y[1] && x[2] == y[2] ==> x[..3] == y[..3];
    }
  }

  lemma WordIsBig(n: int)
    requires IsWord(n)
    ensures var w := WordBytes(n); Big(w[0], w[1], w[2], w[3]) == Unsigned(n)
  {
    Digits256(n);
  }

  /** Words are in the order of their bytes, as unsigned numbers. */
  lemma WordsInOrder(m: int, n: int)
    requires IsWord(m) && IsWord(n)
    ensures Unsigned(m) < Unsigned(n) <==> SmallerBytes(WordBytes(m), WordBytes(n))
  {
    WordIsBig(m);
    WordIsBig(n);
    hide WordBytes;
    var x, y := WordBytes(m), WordBytes(n);
    BigOrder(x[0], x[1], x[2], x[3], y[0], y[1], y[2], y[3]);
    SmallerIs(x, y);
  }

  /** Four bytes are received as the signed value of the number that they make. */
  lemma WordReceived(a: Byte, b: Byte, c: Byte, d: Byte, version: int, rest: seq<Byte>, alloc: int)
    ensures Dec(CWord, version, [a, b, c, d] + rest, alloc) == Got(Num(Signed(Big(a, b, c, d))), rest, alloc)
  {
    var bytes := [a, b, c, d] + rest;
    assert bytes[0] == a && bytes[1] == b && bytes[2] == c && bytes[3] == d && bytes[4..] == rest;
  }

  /** What is received must fit in a megabyte, together with what has been received before; so must the number of
      elements. */
  lemma RefusedExactly(len: int, size: nat, alloc: nat)
    ensures Refused(len, size, alloc) <==> len < 0 || len > 1048576 || alloc + len * size > 1048576
  {
    assert len >= 0 ==> len * size >= 0;
  }

  // ---- What is sent for each kind of value --------------------------------------------------

  /** v is sent as bytes. */
  ghost predicate SentAs(c: Codec, version: int, context: int, v: Value, bytes: seq<Byte>) {
    WellFormed(c, version, context, v) && Enc(c, version, context, v) == Encoded(bytes, true)
  }

  lemma SentWord(version: int, n: int, a: Byte, b: Byte, c: Byte, d: Byte)
    requires IsWord(n) && Unsigned(n) == Big(a, b, c, d)
    ensures WordBytes(n) == [a, b, c, d] && SentAs(CWord, version, 0, Num(n), [a, b, c, d])
  {
    WordIsBig(n);
    assert Enc(CWord, version, 0, Num(n)) == Encoded(WordBytes(n), true);
    hide WordBytes;
    var w := WordBytes(n);
    SameBig(w[0], w[1], w[2], w[3], a, b, c, d);
  }

  lemma SameBig(a: Byte, b: Byte, c: Byte, d: Byte, e: Byte, f: Byte, g: Byte, h: Byte)
    requires Big(a, b, c, d) == Big(e, f, g, h)
    ensures a == e && b == f && c == g && d == h
  {
  }

  /** A small number: three zeros before it. */
  lemma SentSmall(version: int, n: Byte)
    ensures WordBytes(n as int) == [0, 0, 0, n] && SentAs(CWord, version, 0, Num(n as int), [0, 0, 0, n])
  {
    SentWord(version, n as int, 0, 0, 0, n);
  }

  /** A string of a few letters: its length with the terminator, the letters, and the terminator. */
  lemma SentText(version: int, s: seq<Byte>)
    requires |s| < 255 && 0 !in s
    ensures SentAs(CString, version, 0, Str(s), [0, 0, 0, (|s| + 1) as Byte] + s + [0])
  {
    SentSmall(version, (|s| + 1) as Byte);
    hide WordBytes;
  }

  /** NULL strings and NULL arrays: a zero. NULL pointers: a one. */
  lemma SentNull(version: int, target: Codec, size: nat)
    ensures SentAs(CString, version, 0, Null, [0, 0, 0, 0])
    ensures SentAs(CPtr(target, size), version, 0, Null, [0, 0, 0, 1])
    ensures SentAs(CArray(Stored, target, size), version, 0, Null, [0, 0, 0, 0])
  {
    SentSmall(version, 0);
    SentSmall(version, 1);
    hide WordBytes;
  }

  /** Other pointers: a zero, and what they point to. */
  lemma SentRef(version: int, context: int, target: Codec, size: nat, v: Value, bytes: seq<Byte>)
    requires SentAs(target, version, 0, v, bytes)
    ensures SentAs(CPtr(target, size), version, context, Ref(v), [0, 0, 0, 0] + bytes)
  {
    SentSmall(version, 0);
    EncPtr(target, size, version, context, Ref(v));
    hide WordBytes, Enc;
  }

  /** Records: one field after the other. */
  lemma SentPair(version: int, first: Codec, second: Codec, v: Value, x: seq<Byte>, w: Value, y: seq<Byte>)
    requires SentAs(first, version, 0, v, x) && SentAs(second, version, 0, w, y)
    ensures SentAs(CPair(first, second), version, 0, Pair(v, w), x + y)
  {
    EncPair(first, second, version, 0, Pair(v, w));
    hide Enc;
  }

  /** Arrays of a few elements: their number, and one element after the other. */
  lemma SentElems(version: int, context: int, count: Count, element: Codec, size: nat, vs: seq<Value>, bytes: seq<Byte>)
    requires 0 < |vs| < 256 && Length(count, size, context, Elems(vs)) == |vs|
    requires AllWellFormed(element, version, vs) && EncAll(element, version, vs) == Encoded(bytes, true)
    ensures SentAs(CArray(count, element, size), version, context, Elems(vs), [0, 0, 0, |vs| as Byte] + bytes)
  {
    SentSmall(version, |vs| as Byte);
    EncArray(count, element, size, version, context, Elems(vs));
    hide WordBytes, EncAll;
  }

  lemma SentNone(version: int, element: Codec)
    ensures AllWellFormed(element, version, []) && EncAll(element, version, []) == Encoded([], true)
  {
  }

  lemma SentMore(version: int, element: Codec, v: Value, x: seq<Byte>, vs: seq<Value>, y: seq<Byte>)
    requires SentAs(element, version, 0, v, x)
    requires AllWellFormed(element, version, vs) && EncAll(element, version, vs) == Encoded(y, true)
    ensures AllWellFormed(element, version, [v] + vs) && EncAll(element, version, [v] + vs) == Encoded(x + y, true)
  {
    assert ([v] + vs)[1..] == vs;
    hide Enc;
  }

  lemma SentCase(version: int, head: Codec, tag: Tag, cases: seq<Codec>, v: Value, x: seq<Byte>, w: Value,
                 y: seq<Byte>, k: nat)
    requires SentAs(head, version, 0, v, x) && k == CaseOf(tag, version, v) < |cases|
    requires SentAs(cases[k], version, Last(v), w, y)
    ensures SentAs(CCase(head, tag, cases), version, 0, Pair(v, w), x + y)
  {
    EncCase(head, tag, cases, version, 0, Pair(v, w));
    hide Enc, CaseOf, Last;
  }

  // ---- Some messages ------------------------------------------------------------------------

  /** The first request of a client with version 1.0.3 of the protocol, and no user name. */
  lemma InitBytes(version: int)
    ensures SentAs(INIT_REQ, version, 0, Pair(Num(0x0100_0003), Null), [1, 0, 0, 3, 0, 0, 0, 0])
  {
    SentWord(version, 0x0100_0003, 1, 0, 0, 3);
    SentNull(version, CVoid, 0);
    hide SentAs;
    SentPair(version, CWord, CString, Num(0x0100_0003), [1, 0, 0, 3], Null, [0, 0, 0, 0]);
    assert [1, 0, 0, 3] + [0, 0, 0, 0] == [1, 0, 0, 3, 0, 0, 0, 0];
  }

  /** A client sends it as request 0. */
  method SendInit(w: Wire) returns (reply: Value)
    requires w.Valid() && w.direction != FREE
    modifies w`curr, w`end, w`status, w`direction, w`allocatedMemory, w.io, w.buffer
    ensures w.Valid() && w.direction != FREE
    ensures w.status == 0 ==> w.io.sent == old(Backlog(w)) + [0, 0, 0, 0, 1, 0, 0, 3, 0, 0, 0, 0]
  {
    InitBytes(w.version);
    SentSmall(w.version, 0);
    assert [0, 0, 0, 0] + [1, 0, 0, 3, 0, 0, 0, 0] == [0, 0, 0, 0, 1, 0, 0, 3, 0, 0, 0, 0];
    hide WordBytes, Enc, WellFormed;
    reply := Call(w, 0, INIT_REQ, Pair(Num(0x0100_0003), Null), INIT_REPLY);
  }

  /** A device with the name "ab", no vendor, the model "c" and an empty type. */
  lemma DeviceBytes(version: int)
    ensures SentAs(DEVICE, version, 0, Device(Text([97, 98]), NoText, Text([99]), Text([])).AsValue(),
                   [0, 0, 0, 3, 97, 98, 0] + [0, 0, 0, 0] + [0, 0, 0, 2, 99, 0] + [0, 0, 0, 1, 0])
  {
    SentText(version, [97, 98]);
    SentNull(version, CVoid, 0);
    SentText(version, [99]);
    SentText(version, []);
    hide SentAs;
    assert [0, 0, 0, 3] + [97, 98] + [0] == [0, 0, 0, 3, 97, 98, 0];
    assert [0, 0, 0, 2] + [99] + [0] == [0, 0, 0, 2, 99, 0] && [0, 0, 0, 1] + [] + [0] == [0, 0, 0, 1, 0];
    var two, three := CPair(CString, CString), CPair(CPair(CString, CString), CString);
    var x := [0, 0, 0, 3, 97, 98, 0];
    SentPair(version, CString, CString, Str([97, 98]), x, Null, [0, 0, 0, 0]);
    SentPair(version, two, CString, Pair(Str([97, 98]), Null), x + [0, 0, 0, 0], Str([99]), [0, 0, 0, 2, 99, 0]);
    SentPair(version, three, CString, Pair(Pair(Str([97, 98]), Null), Str([99])),
             x + [0, 0, 0, 0] + [0, 0, 0, 2, 99, 0], Str([]), [0, 0, 0, 1, 0]);
  }

  /** The status and a list with one device: two pointers, of which the second is NULL. */
  lemma DevicesBytes(version: int, device: Value, bytes: seq<Byte>)
    requires device.Pair? && SentAs(DEVICE, version, 0, device, bytes)
    ensures SentAs(GET_DEVICES_REPLY, version, 0, Pair(Num(0), Elems([Ref(device), Null])),
                   [0, 0, 0, 0] + ([0, 0, 0, 2] + ([0, 0, 0, 0] + bytes + [0, 0, 0, 1])))
  {
    SentSmall(version, 0);
    SentNull(version, DEVICE, 32);
    hide SentAs;
    var element := CPtr(DEVICE, 32);
    SentRef(version, 0, DEVICE, 32, device, bytes);
    SentNone(version, element);
    SentMore(version, element, Null, [0, 0, 0, 1], [], []);
    SentMore(version, element, Ref(device), [0, 0, 0, 0] + bytes, [Null], [0, 0, 0, 1]);
    assert [Ref(device)] + [Null] == [Ref(device), Null] && [Null] + [] == [Null] && [0, 0, 0, 1] + [] == [0, 0, 0, 1];
    var vs := [Ref(device), Null];
    assert FirstNull(vs) == 1;
    SentElems(version, 0, Terminated(true), element, 8, vs, [0, 0, 0, 0] + bytes + [0, 0, 0, 1]);
    SentPair(version, CWord, CArray(Terminated(true), element, 8), Num(0), [0, 0, 0, 0], Elems(vs),
             [0, 0, 0, 2] + ([0, 0, 0, 0] + bytes + [0, 0, 0, 1]));
  }

  // ---- Options ------------------------------------------------------------------------------

  /** An option of type 2 and unit 3, with size 4 and capabilities 5: the strings and the words that come first. */
  lemma HeadBytes(version: int, kind: Byte)
    ensures SentAs(OPTION_HEAD, version, 0, Head(kind as int),
                   [0, 0, 0, 2, 120, 0] + [0, 0, 0, 2, 121, 0] + [0, 0, 0, 0]
                   + [0, 0, 0, 2] + [0, 0, 0, 3] + [0, 0, 0, 4] + [0, 0, 0, 5] + [0, 0, 0, kind])
  {
    SentText(version, [120]);
    SentText(version, [121]);
    SentNull(version, CVoid, 0);
    assert [0, 0, 0, 2] + [120] + [0] == [0, 0, 0, 2, 120, 0] && [0, 0, 0, 2] + [121] + [0] == [0, 0, 0, 2, 121, 0];
    SentSmall(version, 2);
    SentSmall(version, 3);
    SentSmall(version, 4);
    SentSmall(version, 5);
    SentSmall(version, kind);
    hide SentAs;
    var x, y, none := [0, 0, 0, 2, 120, 0], [0, 0, 0, 2, 121, 0], [0, 0, 0, 0];
    var strings := CPair(CPair(CString, CString), CString);
    var vs := Pair(Pair(Str([120]), Str([121])), Null);
    SentPair(version, CString, CString, Str([120]), x, Str([121]), y);
    SentPair(version, CPair(CString, CString), CString, vs.fst, x + y, Null, none);
    SentPair(version, strings, CWord, vs, x + y + none, Num(2), [0, 0, 0, 2]);
    var b := x + y + none + [0, 0, 0, 2];
    SentPair(version, CPair(strings, CWord), CWord, Pair(vs, Num(2)), b, Num(3), [0, 0, 0, 3]);
    SentPair(version, CPair(CPair(strings, CWord), CWord), CWord, Pair(Pair(vs, Num(2)), Num(3)),
             b + [0, 0, 0, 3], Num(4), [0, 0, 0, 4]);
    SentPair(version, CPair(CPair(CPair(strings, CWord), CWord), CWord), CWord,
             Pair(Pair(Pair(vs, Num(2)), Num(3)), Num(4)), b + [0, 0, 0, 3] + [0, 0, 0, 4], Num(5), [0, 0, 0, 5]);
    SentPair(version, CPair(CPair(CPair(CPair(strings, CWord), CWord), CWord), CWord), CWord,
             Pair(Pair(Pair(Pair(vs, Num(2)), Num(3)), Num(4)), Num(5)),
             b + [0, 0, 0, 3] + [0, 0, 0, 4] + [0, 0, 0, 5], Num(kind as int), [0, 0, 0, kind]);
  }

  /** The part of the option in front of its constraint. */
  function Head(kind: int): Value {
    var strings := Pair(Pair(Str([120]), Str([121])), Null);
    Pair(Pair(Pair(Pair(Pair(strings, Num(2)), Num(3)), Num(4)), Num(5)), Num(kind))
  }

  function OptionWith(constraint: Constraint): OptionDescriptor {
    OptionDescriptor(Text([120]), Text([121]), NoText, 2, 3, 4, 5, constraint)
  }

  /** The constraint follows: nothing; a pointer to a range; the number of words in a list, including the first one,
      which counts the others; or the number of strings in a list, including the NULL at its end. */
  lemma ConstraintBytes(version: int)
    ensures SentAs(CVoid, version, 0, Unconstrained.AsValue(), [])
    ensures SentAs(CONSTRAINTS[1], version, 1, InRange(-1, 300, 2).AsValue(),
                   [0, 0, 0, 0] + ([255, 255, 255, 255] + [0, 0, 1, 44] + [0, 0, 0, 2]))
    ensures SentAs(CONSTRAINTS[2], version, 2, InWords([7, 9]).AsValue(),
                   [0, 0, 0, 3] + ([0, 0, 0, 2] + ([0, 0, 0, 7] + [0, 0, 0, 9])))
    ensures SentAs(CONSTRAINTS[3], version, 3, InStrings([[97]]).AsValue(),
                   [0, 0, 0, 2] + ([0, 0, 0, 2, 97, 0] + [0, 0, 0, 0]))
  {
    RangeBytes(version);
    WordListBytes(version);
    StringListBytes(version);
  }

  lemma RangeBytes(version: int)
    ensures SentAs(CPtr(RANGE, 12), version, 1, InRange(-1, 300, 2).AsValue(),
                   [0, 0, 0, 0] + ([255, 255, 255, 255] + [0, 0, 1, 44] + [0, 0, 0, 2]))
  {
    SentWord(version, -1, 255, 255, 255, 255);
    SentWord(version, 300, 0, 0, 1, 44);
    SentSmall(version, 2);
    hide SentAs;
    var x, y := [255, 255, 255, 255], [0, 0, 1, 44];
    SentPair(version, CWord, CWord, Num(-1), x, Num(300), y);
    SentPair(version, CPair(CWord, CWord), CWord, Pair(Num(-1), Num(300)), x + y, Num(2), [0, 0, 0, 2]);
    SentRef(version, 1, RANGE, 12, Pair(Pair(Num(-1), Num(300)), Num(2)), x + y + [0, 0, 0, 2]);
  }

  lemma WordListBytes(version: int)
    ensures SentAs(CArray(SelfCounted, CWord, 4), version, 2, InWords([7, 9]).AsValue(),
                   [0, 0, 0, 3] + ([0, 0, 0, 2] + ([0, 0, 0, 7] + [0, 0, 0, 9])))
  {
    SentSmall(version, 2);
    SentSmall(version, 7);
    SentSmall(version, 9);
    hide SentAs;
    SentNone(version, CWord);
    SentMore(version, CWord, Num(9), [0, 0, 0, 9], [], []);
    assert [Num(9)] + [] == [Num(9)] && [0, 0, 0, 9] + [] == [0, 0, 0, 9];
    SentMore(version, CWord, Num(7), [0, 0, 0, 7], [Num(9)], [0, 0, 0, 9]);
    assert [Num(7)] + [Num(9)] == [Num(7), Num(9)];
    SentMore(version, CWord, Num(2), [0, 0, 0, 2], [Num(7), Num(9)], [0, 0, 0, 7] + [0, 0, 0, 9]);
    var words, vs := [2, 7, 9], [Num(2), Num(7), Num(9)];
    assert [|[7, 9]|] + [7, 9] == words && [Num(2)] + [Num(7), Num(9)] == vs;
    NumsOf(2, 7, 9);
    SentElems(version, 2, SelfCounted, CWord, 4, vs, [0, 0, 0, 2] + ([0, 0, 0, 7] + [0, 0, 0, 9]));
  }

  lemma NumsOf(a: int, b: int, c: int)
    ensures Nums([a, b, c]) == [Num(a), Num(b), Num(c)]
  {
    assert [a, b, c][1..] == [b, c] && [b, c][1..] == [c] && [c][1..] == [];
    assert Nums([c]) == [Num(c)] && Nums([b, c]) == [Num(b), Num(c)];
  }

  lemma StringListBytes(version: int)
    ensures SentAs(CArray(Terminated(false), CString, 8), version, 3, InStrings([[97]]).AsValue(),
                   [0, 0, 0, 2] + ([0, 0, 0, 2, 97, 0] + [0, 0, 0, 0]))
  {
    SentText(version, [97]);
    SentNull(version, CVoid, 0);
    assert [0, 0, 0, 2] + [97] + [0] == [0, 0, 0, 2, 97, 0];
    hide SentAs;
    SentNone(version, CString);
    SentMore(version, CString, Null, [0, 0, 0, 0], [], []);
    assert [Null] + [] == [Null] && [0, 0, 0, 0] + [] == [0, 0, 0, 0];
    SentMore(version, CString, Str([97]), [0, 0, 0, 2, 97, 0], [Null], [0, 0, 0, 0]);
    var vs, strings := [Str([97]), Null], [[97]];
    assert [Str([97])] + [Null] == vs && strings[1..] == [] && Strs(strings) + [Null] == vs;
    assert FirstNull(vs[1..]) == 0 && FirstNull(vs) == 1;
    SentElems(version, 3, Terminated(false), CString, 8, vs, [0, 0, 0, 2, 97, 0] + [0, 0, 0, 0]);
  }

  /** The whole option: the words and strings in front, and then its constraint. */
  lemma OptionBytes(version: int, constraint: Constraint, kind: Byte, bytes: seq<Byte>)
    requires kind as int == constraint.Type()
    requires SentAs(CONSTRAINTS[kind], version, kind as int, constraint.AsValue(), bytes)
    ensures SentAs(OPTION_DESCRIPTOR, version, 0, OptionWith(constraint).AsValue(),
                   [0, 0, 0, 2, 120, 0] + [0, 0, 0, 2, 121, 0] + [0, 0, 0, 0]
                   + [0, 0, 0, 2] + [0, 0, 0, 3] + [0, 0, 0, 4] + [0, 0, 0, 5] + [0, 0, 0, kind] + bytes)
  {
    HeadBytes(version, kind);
    hide SentAs;
    SentCase(version, OPTION_HEAD, ByConstraint, CONSTRAINTS, Head(kind as int),
             [0, 0, 0, 2, 120, 0] + [0, 0, 0, 2, 121, 0] + [0, 0, 0, 0]
             + [0, 0, 0, 2] + [0, 0, 0, 3] + [0, 0, 0, 4] + [0, 0, 0, 5] + [0, 0, 0, kind],
             constraint.AsValue(), bytes, kind as nat);
  }

  // ---- Option values ------------------------------------------------------------------------

  /** The value of an option: two words, a letter with its NUL, or nothing for a group. */
  lemma SettingBytes(version: int)
    ensures SentAs(OPTION_VALUES[0], version, 8, Elems([Num(1), Num(-1)]),
                   [0, 0, 0, 2] + ([0, 0, 0, 1] + [255, 255, 255, 255]))
    ensures SentAs(OPTION_VALUES[1], version, 2, Elems([Num(65), Num(0)]), [0, 0, 0, 2] + ([65] + [0]))
    ensures SentAs(OPTION_VALUES[2], version, 0, Null, [0, 0, 0, 0])
  {
    SentSmall(version, 1);
    SentSmall(version, 0);
    SentWord(version, -1, 255, 255, 255, 255);
    hide WordBytes;
    assert SentAs(CByte, version, 0, Num(65), [65]) && SentAs(CByte, version, 0, Num(0), [0]);
    assert SentAs(CArray(OfSize, CVoid, 0), version, 0, Null, [0, 0, 0, 0]);
    hide SentAs;
    SentTwo(version, 8, CWord, 4, Num(1), [0, 0, 0, 1], Num(-1), [255, 255, 255, 255]);
    SentTwo(version, 2, CByte, 1, Num(65), [65], Num(0), [0]);
  }

  lemma SentTwo(version: int, context: nat, element: Codec, size: nat, v: Value, x: seq<Byte>, w: Value, y: seq<Byte>)
    requires SentAs(element, version, 0, v, x) && SentAs(element, version, 0, w, y)
    requires size > 0 && context == 2 * size
    ensures SentAs(CArray(OfSize, element, size), version, context, Elems([v, w]), [0, 0, 0, 2] + (x + y))
  {
    hide SentAs;
    SentNone(version, element);
    SentMore(version, element, w, y, [], []);
    assert [w] + [] == [w] && y + [] == y;
    SentMore(version, element, v, x, [w], y);
    assert [v] + [w] == [v, w];
    SentElems(version, context, OfSize, element, size, [v, w], x + y);
  }

  /** A request for option 2 of handle 9: the action, and after it the setting, unless the option is set to its
      automatic value by version 3 of the protocol. */
  lemma ControlBytes(version: int, action: Byte, setting: Value, bytes: seq<Byte>)
    requires SentAs(OPTION_SETTING, version, action as int, setting, bytes)
    ensures if version < 3 || action != 2 then
              SentAs(CONTROL_OPTION_REQ, version, 0, Pair(Pair(Pair(Num(9), Num(2)), Num(action as int)), setting),
                     [0, 0, 0, 9] + [0, 0, 0, 2] + [0, 0, 0, action] + bytes)
            else
              SentAs(CONTROL_OPTION_REQ, version, 0, Pair(Pair(Pair(Num(9), Num(2)), Num(action as int)), Nothing),
                     [0, 0, 0, 9] + [0, 0, 0, 2] + [0, 0, 0, action])
  {
    SentSmall(version, 9);
    SentSmall(version, 2);
    SentSmall(version, action);
    assert SentAs(CVoid, version, action as int, Nothing, []);
    hide SentAs;
    var cases, head := [OPTION_SETTING, CVoid], CPair(CPair(CWord, CWord), CWord);
    var v, x := Pair(Pair(Num(9), Num(2)), Num(action as int)), [0, 0, 0, 9] + [0, 0, 0, 2] + [0, 0, 0, action];
    SentPair(version, CWord, CWord, Num(9), [0, 0, 0, 9], Num(2), [0, 0, 0, 2]);
    SentPair(version, CPair(CWord, CWord), CWord, v.fst, [0, 0, 0, 9] + [0, 0, 0, 2], v.snd, [0, 0, 0, action]);
    if version < 3 || action != 2 {
      SentCase(version, head, ByAction, cases, v, x, setting, bytes, 0);
    } else {
      SentCase(version, head, ByAction, cases, v, x, Nothing, [], 1);
      assert x + [] == x;
    }
  }

  /** The type selects the form of the value: words for 0 to 2, bytes for 3, and nothing for 4 and 5. */
  lemma TypedBytes(version: int, context: int, valueType: Byte, size: Byte, value: Value, bytes: seq<Byte>)
    requires valueType <= 5
    requires SentAs(OPTION_VALUES[if valueType <= 2 then 0 else if valueType == 3 then 1 else 2], version, size as int,
                    value, bytes)
    ensures SentAs(OPTION_SETTING, version, context, Pair(Pair(Num(valueType as int), Num(size as int)), value),
                   [0, 0, 0, valueType] + [0, 0, 0, size] + bytes)
  {
    SentSmall(version, valueType);
    SentSmall(version, size);
    hide SentAs;
    var v := Pair(Num(valueType as int), Num(size as int));
    SentPair(version, CWord, CWord, v.fst, [0, 0, 0, valueType], v.snd, [0, 0, 0, size]);
    var k := if valueType <= 2 then 0 else if valueType == 3 then 1 else 2;
    SentCase(version, CPair(CWord, CWord), ByType, OPTION_VALUES, v, [0, 0, 0, valueType] + [0, 0, 0, size], value,
             bytes, k);
    AnyContext(version, context, CPair(CWord, CWord), ByType, OPTION_VALUES, Pair(v, value),
               [0, 0, 0, valueType] + [0, 0, 0, size] + bytes);
  }

  lemma AnyContext(version: int, context: int, head: Codec, tag: Tag, cases: seq<Codec>, v: Value, bytes: seq<Byte>)
    requires SentAs(CCase(head, tag, cases), version, 0, v, bytes)
    ensures SentAs(CCase(head, tag, cases), version, context, v, bytes)
  {
  }
}
