/** What the wire format promises: whatever is sent is received again, messages can follow one another, and
    freeing gives back what receiving took. */
module WireRoundTrip {
  import opened Machine
  import opened WireSpec

  // ---- Round trip ---------------------------------------------------------------------------

  /** v can be received within the limits on memory, alloc bytes being allocated already. */
  predicate Fits(c: Codec, version: int, v: Value, alloc: int)
    decreases c, 0, 0
  {
    match c
    case CVoid => true
    case CByte => true
    case CWord => true
    case CString => v.Str? ==> !Refused(|v.s| + 1, 1, alloc)
    case CPtr(target, size) => v.Ref? ==> size <= MAX_MEM && Fits(target, version, v.value, alloc + size)
    case CArray(_, element, size) =>
      v.Elems? ==> !Refused(|v.vs|, size, alloc) && AllFit(element, version, v.vs, alloc + |v.vs| * size)
    case CPair(first, second) =>
      v.Pair? ==> Fits(first, version, v.fst, alloc)
                  && Fits(second, version, v.snd, alloc + Mem(first, version, v.fst))
    case CCase(head, tag, cases) =>
      v.Pair? ==>
        Fits(head, version, v.fst, alloc)
        && var k := CaseOf(tag, version, v.fst);
           k < |cases| ==> Fits(cases[k], version, v.snd, alloc + Mem(head, version, v.fst))
  }

  predicate AllFit(c: Codec, version: int, vs: seq<Value>, alloc: int)
    decreases c, 1, |vs|
  {
    vs == [] || (Fits(c, version, vs[0], alloc) && AllFit(c, version, vs[1..], alloc + Mem(c, version, vs[0])))
  }

  /** What receiving v yields when it was sent before rest. */
  function Received<T>(v: T, fits: bool, rest: seq<Byte>, mem: int): Decoded<T> {
    if fits then Got(v, rest, mem) else Failed(ENOMEM)
  }

  /** The statement of the round trip for one value. */
  ghost predicate Survives(c: Codec, version: int, context: int, v: Value, rest: seq<Byte>, alloc: int)
    requires WellFormed(c, version, context, v)
  {
    Dec(c, version, Enc(c, version, context, v).bytes + rest, alloc)
    == Received(v, Fits(c, version, v, alloc), rest, alloc + Mem(c, version, v))
  }

  ghost predicate AllSurvive(c: Codec, version: int, vs: seq<Value>, rest: seq<Byte>, alloc: int)
    requires AllWellFormed(c, version, vs)
  {
    DecAll(c, version, |vs|, EncAll(c, version, vs).bytes + rest, alloc)
    == Received(vs, AllFit(c, version, vs, alloc), rest, alloc + MemAll(c, version, vs))
  }

  lemma FitsPair(first: Codec, second: Codec, version: int, v: Value, alloc: int)
    requires v.Pair?
    ensures Fits(CPair(first, second), version, v, alloc)
         == (Fits(first, version, v.fst, alloc) && Fits(second, version, v.snd, alloc + Mem(first, version, v.fst)))
    ensures Mem(CPair(first, second), version, v) == Mem(first, version, v.fst) + Mem(second, version, v.snd)
  {
  }

  lemma PairSurvives(first: Codec, second: Codec, version: int, context: int, v: Value, rest: seq<Byte>, alloc: int)
    requires WellFormed(CPair(first, second), version, context, v)
    requires Enc(CPair(first, second), version, context, v).valid
    requires v.Pair? && WellFormed(first, version, 0, v.fst) && WellFormed(second, version, 0, v.snd)
    requires Survives(first, version, 0, v.fst, Enc(second, version, 0, v.snd).bytes + rest, alloc)
    requires Survives(second, version, 0, v.snd, rest, alloc + Mem(first, version, v.fst))
    ensures Survives(CPair(first, second), version, context, v, rest, alloc)
  {
    hide Dec, Enc, Fits, Mem, WellFormed;
    EncPair(first, second, version, context, v);
    FitsPair(first, second, version, v, alloc);
    var e, f := Enc(first, version, 0, v.fst), Enc(second, version, 0, v.snd);
    var b := e.bytes + (f.bytes + rest);
    assert Enc(CPair(first, second), version, context, v).bytes + rest == b;
    DecPair(first, second, version, b, alloc);
  }

  lemma FitsPtr(target: Codec, size: nat, version: int, v: Value, alloc: int)
    ensures Fits(CPtr(target, size), version, v, alloc)
         == (v.Ref? ==> size <= MAX_MEM && Fits(target, version, v.value, alloc + size))
    ensures Mem(CPtr(target, size), version, v) == if v.Ref? then size + Mem(target, version, v.value) else 0
  {
  }

  lemma PtrSurvives(target: Codec, size: nat, version: int, context: int, v: Value, rest: seq<Byte>, alloc: int)
    requires WellFormed(CPtr(target, size), version, context, v)
    requires v.Null? || (v.Ref? && WellFormed(target, version, 0, v.value))
    requires v.Ref? ==> Survives(target, version, 0, v.value, rest, alloc + size)
    ensures Survives(CPtr(target, size), version, context, v, rest, alloc)
  {
    hide Dec, Enc, Fits, Mem, WellFormed, WordOf, WordBytes;
    EncPtr(target, size, version, context, v);
    FitsPtr(target, size, version, v, alloc);
    var tail := if v.Null? then rest else Enc(target, version, 0, v.value).bytes + rest;
    var flag := if v.Null? then 1 else 0;
    WordRoundTrip(flag, tail);
    assert Enc(CPtr(target, size), version, context, v).bytes + rest == WordBytes(flag) + tail;
    DecPtr(target, size, version, WordBytes(flag) + tail, alloc);
  }

  lemma FitsArray(count: Count, element: Codec, size: nat, version: int, v: Value, alloc: int)
    ensures Fits(CArray(count, element, size), version, v, alloc)
         == (v.Elems? ==> !Refused(|v.vs|, size, alloc) && AllFit(element, version, v.vs, alloc + |v.vs| * size))
    ensures Mem(CArray(count, element, size), version, v)
         == if v.Elems? then |v.vs| * size + MemAll(element, version, v.vs) else 0
  {
    hide AllFit, MemAll;
  }

  lemma ArraySurvives(count: Count, element: Codec, size: nat, version: int, context: int, v: Value, rest: seq<Byte>,
                      alloc: int)
    requires WellFormed(CArray(count, element, size), version, context, v)
    requires v.Null? || (v.Elems? && AllWellFormed(element, version, v.vs))
    requires v.Elems? ==> AllSurvive(element, version, v.vs, rest, alloc + |v.vs| * size)
    ensures Survives(CArray(count, element, size), version, context, v, rest, alloc)
  {
    hide Dec, Enc, Fits, Mem, WellFormed, DecAll, EncAll, AllFit, MemAll, AllWellFormed, WordOf, WordBytes, Refused;
    EncArray(count, element, size, version, context, v);
    FitsArray(count, element, size, version, v, alloc);
    var tail := if v.Null? then rest else EncAll(element, version, v.vs).bytes + rest;
    var len := if v.Null? then 0 else |v.vs|;
    WordRoundTrip(len, tail);
    assert Enc(CArray(count, element, size), version, context, v).bytes + rest == WordBytes(len) + tail;
    DecArray(count, element, size, version, WordBytes(len) + tail, alloc);
  }

  lemma FitsCase(head: Codec, tag: Tag, cases: seq<Codec>, version: int, v: Value, alloc: int)
    requires v.Pair? && CaseOf(tag, version, v.fst) < |cases|
    ensures var c := cases[CaseOf(tag, version, v.fst)];
            && Fits(CCase(head, tag, cases), version, v, alloc)
               == (Fits(head, version, v.fst, alloc) && Fits(c, version, v.snd, alloc + Mem(head, version, v.fst)))
            && Mem(CCase(head, tag, cases), version, v) == Mem(head, version, v.fst) + Mem(c, version, v.snd)
  {
    hide CaseOf;
  }

  lemma CaseSurvives(head: Codec, tag: Tag, cases: seq<Codec>, k: nat, version: int, context: int, v: Value,
                     rest: seq<Byte>, alloc: int)
    requires WellFormed(CCase(head, tag, cases), version, context, v)
    requires Enc(CCase(head, tag, cases), version, context, v).valid
    requires v.Pair? && WellFormed(head, version, 0, v.fst)
    requires k == CaseOf(tag, version, v.fst) < |cases| && WellFormed(cases[k], version, Last(v.fst), v.snd)
    requires Survives(head, version, 0, v.fst, Enc(cases[k], version, Last(v.fst), v.snd).bytes + rest, alloc)
    requires Survives(cases[k], version, Last(v.fst), v.snd, rest, alloc + Mem(head, version, v.fst))
    ensures Survives(CCase(head, tag, cases), version, context, v, rest, alloc)
  {
    hide Dec, Enc, Fits, Mem, WellFormed, CaseOf, Last;
    EncCase(head, tag, cases, version, context, v);
    FitsCase(head, tag, cases, version, v, alloc);
    var e, f := Enc(head, version, 0, v.fst), Enc(cases[k], version, Last(v.fst), v.snd);
    var b := e.bytes + (f.bytes + rest);
    assert Enc(CCase(head, tag, cases), version, context, v).bytes + rest == b;
    DecCase(head, tag, cases, version, b, alloc);
  }

  lemma FitsCons(c: Codec, version: int, vs: seq<Value>, alloc: int)
    requires vs != []
    ensures AllFit(c, version, vs, alloc)
         == (Fits(c, version, vs[0], alloc) && AllFit(c, version, vs[1..], alloc + Mem(c, version, vs[0])))
    ensures MemAll(c, version, vs) == Mem(c, version, vs[0]) + MemAll(c, version, vs[1..])
  {
    hide Fits, Mem;
  }

  lemma ConsSurvives(c: Codec, version: int, vs: seq<Value>, rest: seq<Byte>, alloc: int)
    requires AllWellFormed(c, version, vs) && EncAll(c, version, vs).valid && vs != []
    requires WellFormed(c, version, 0, vs[0]) && AllWellFormed(c, version, vs[1..])
    requires Survives(c, version, 0, vs[0], EncAll(c, version, vs[1..]).bytes + rest, alloc)
    requires AllSurvive(c, version, vs[1..], rest, alloc + Mem(c, version, vs[0]))
    ensures AllSurvive(c, version, vs, rest, alloc)
  {
    hide Dec, Enc, Fits, Mem, WellFormed, DecAll, EncAll, AllFit, MemAll, AllWellFormed;
    var e, f := Enc(c, version, 0, vs[0]), EncAll(c, version, vs[1..]);
    var b := e.bytes + (f.bytes + rest);
    EncCons(c, version, vs);
    DecCons(c, version, |vs|, b, alloc);
    FitsCons(c, version, vs, alloc);
    assert EncAll(c, version, vs).bytes + rest == b;
    assert [vs[0]] + vs[1..] == vs;
  }

  lemma StringSurvives(version: int, context: int, v: Value, rest: seq<Byte>, alloc: int)
    requires WellFormed(CString, version, context, v)
    ensures Survives(CString, version, context, v, rest, alloc)
  {
    if v.Null? {
      WordRoundTrip(0, rest);
    } else {
      var len, tail := |v.s| + 1, v.s + [0] + rest;
      var b := WordBytes(len) + tail;
      WordRoundTrip(len, tail);
      assert Enc(CString, version, context, v).bytes + rest == b;
      assert b[4..3 + len] == v.s && b[4 + len..] == rest;
      CStringWhole(v.s);
    }
  }

  lemma LeafSurvives(c: Codec, version: int, context: int, v: Value, rest: seq<Byte>, alloc: int)
    requires c.CVoid? || c.CByte? || c.CWord?
    requires WellFormed(c, version, context, v)
    ensures Survives(c, version, context, v, rest, alloc)
  {
    if c.CVoid? {
      assert [] + rest == rest;
    } else if c.CWord? {
      WordRoundTrip(v.n, rest);
    }
  }

  lemma {:induction false} AlwaysSurvives(c: Codec, version: int, context: int, v: Value, rest: seq<Byte>, alloc: int)
    requires WellFormed(c, version, context, v) && Enc(c, version, context, v).valid
    ensures Survives(c, version, context, v, rest, alloc)
    decreases c, 0, 0
  {
    hide Dec, Enc, Fits, Mem, WellFormed, EncAll, AllWellFormed, Survives, AllSurvive, CaseOf, Last;
    match c
    case CVoid => LeafSurvives(c, version, context, v, rest, alloc);
    case CByte => LeafSurvives(c, version, context, v, rest, alloc);
    case CWord => LeafSurvives(c, version, context, v, rest, alloc);
    case CString => StringSurvives(version, context, v, rest, alloc);
    case CPtr(target, size) =>
      EncPtr(target, size, version, context, v);
      if v.Ref? {
        AlwaysSurvives(target, version, 0, v.value, rest, alloc + size);
      }
      PtrSurvives(target, size, version, context, v, rest, alloc);
    case CArray(count, element, size) =>
      EncArray(count, element, size, version, context, v);
      if v.Elems? {
        AllAlwaysSurvive(element, version, v.vs, rest, alloc + |v.vs| * size);
      }
      ArraySurvives(count, element, size, version, context, v, rest, alloc);
    case CPair(first, second) =>
      EncPair(first, second, version, context, v);
      AlwaysSurvives(first, version, 0, v.fst, Enc(second, version, 0, v.snd).bytes + rest, alloc);
      AlwaysSurvives(second, version, 0, v.snd, rest, alloc + Mem(first, version, v.fst));
      PairSurvives(first, second, version, context, v, rest, alloc);
    case CCase(head, tag, cases) =>
      EncCase(head, tag, cases, version, context, v);
      var k := CaseOf(tag, version, v.fst);
      var next := cases[k];
      AlwaysSurvives(head, version, 0, v.fst, Enc(next, version, Last(v.fst), v.snd).bytes + rest, alloc);
      AlwaysSurvives(next, version, Last(v.fst), v.snd, rest, alloc + Mem(head, version, v.fst));
      CaseSurvives(head, tag, cases, k, version, context, v, rest, alloc);
  }

  lemma {:induction false} AllAlwaysSurvive(c: Codec, version: int, vs: seq<Value>, rest: seq<Byte>, alloc: int)
    requires AllWellFormed(c, version, vs) && EncAll(c, version, vs).valid
    ensures AllSurvive(c, version, vs, rest, alloc)
    decreases c, 1, |vs|
  {
    hide Dec, Enc, Fits, Mem, WellFormed;
    if vs == [] {
      assert [] + rest == rest;
    } else {
      hide Survives, AllSurvive;
      EncCons(c, version, vs);
      AlwaysSurvives(c, version, 0, vs[0], EncAll(c, version, vs[1..]).bytes + rest, alloc);
      AllAlwaysSurvive(c, version, vs[1..], rest, alloc + Mem(c, version, vs[0]));
      ConsSurvives(c, version, vs, rest, alloc);
    }
  }

  /** With a valid encoding of v at the head of the stream, the receiver gets v and leaves the rest, so that
      messages can follow one another; if v exceeds the limits on memory it reports ENOMEM. */
  lemma RoundTrip(c: Codec, version: int, context: int, v: Value, rest: seq<Byte>, alloc: int)
    requires WellFormed(c, version, context, v) && Enc(c, version, context, v).valid
    ensures Dec(c, version, Enc(c, version, context, v).bytes + rest, alloc)
         == if Fits(c, version, v, alloc) then Got(v, rest, alloc + Mem(c, version, v)) else Failed(ENOMEM)
  {
    hide Dec, Enc, Fits, Mem, WellFormed;
    AlwaysSurvives(c, version, context, v, rest, alloc);
  }

  // ---- Memory -------------------------------------------------------------------------------

  /** Only elements of an array that is always empty, and nothing behind a pointer, have size 0. */
  predicate Sized(c: Codec) {
    match c
    case CVoid => true
    case CByte => true
    case CWord => true
    case CString => true
    case CPtr(target, size) => 0 < size && Sized(target)
    case CArray(count, element, size) => (0 < size || count == OfSize) && Sized(element)
    case CPair(first, second) => Sized(first) && Sized(second)
    case CCase(head, _, cases) => Sized(head) && forall k | 0 <= k < |cases| :: Sized(cases[k])
  }

  lemma TimesAtLeast(n: nat, size: nat)
    requires 0 < size
    ensures n <= n * size
  {
  }

  /** Whatever needs no more memory than is left fits. */
  lemma {:induction false} SmallFits(c: Codec, version: int, context: int, v: Value, alloc: nat)
    requires Sized(c) && WellFormed(c, version, context, v) && alloc + Mem(c, version, v) <= MAX_MEM
    ensures Fits(c, version, v, alloc)
    decreases c, 1, 0
  {
    match c
    case CVoid =>
    case CByte =>
    case CWord =>
    case CString =>
    case CPtr(target, size) =>
      if v.Ref? {
        SmallFits(target, version, 0, v.value, alloc + size);
      }
    case CArray(_, _, _) => SmallArrayFits(c, version, context, v, alloc);
    case CPair(first, second) =>
      SmallFits(first, version, 0, v.fst, alloc);
      SmallFits(second, version, 0, v.snd, alloc + Mem(first, version, v.fst));
    case CCase(_, _, _) => SmallCaseFits(c, version, context, v, alloc);
  }

  lemma {:induction false} SmallArrayFits(c: Codec, version: int, context: int, v: Value, alloc: nat)
    requires c.CArray? && Sized(c) && WellFormed(c, version, context, v) && alloc + Mem(c, version, v) <= MAX_MEM
    ensures Fits(c, version, v, alloc)
    decreases c, 0, 0
  {
    if v.Elems? {
      TimesAtLeast(|v.vs|, c.size);
      AllSmallFit(c.element, version, v.vs, alloc + |v.vs| * c.size);
    }
  }

  lemma {:induction false} SmallCaseFits(c: Codec, version: int, context: int, v: Value, alloc: nat)
    requires c.CCase? && Sized(c) && WellFormed(c, version, context, v) && alloc + Mem(c, version, v) <= MAX_MEM
    ensures Fits(c, version, v, alloc)
    decreases c, 0, 0
  {
    SmallFits(c.head, version, 0, v.fst, alloc);
    var k := CaseOf(c.tag, version, v.fst);
    if k < |c.cases| {
      SmallFits(c.cases[k], version, Last(v.fst), v.snd, alloc + Mem(c.head, version, v.fst));
    }
  }

  lemma {:induction false} AllSmallFit(c: Codec, version: int, vs: seq<Value>, alloc: nat)
    requires Sized(c) && AllWellFormed(c, version, vs) && alloc + MemAll(c, version, vs) <= MAX_MEM
    ensures AllFit(c, version, vs, alloc)
    decreases c, 2, |vs|
  {
    if vs != [] {
      SmallFits(c, version, 0, vs[0], alloc);
      AllSmallFit(c, version, vs[1..], alloc + Mem(c, version, vs[0]));
    }
  }

  /** What can be sent can be freed. */
  lemma {:induction false} WhatIsSentIsReadable(c: Codec, version: int, context: int, v: Value)
    requires WellFormed(c, version, context, v)
    ensures Readable(c, version, context, v)
    decreases c, 0, 0
  {
    match c
    case CVoid =>
    case CByte =>
    case CWord =>
    case CString =>
    case CPtr(target, _) =>
      if v.Ref? {
        WhatIsSentIsReadable(target, version, 0, v.value);
      }
    case CArray(_, element, _) =>
      if v.Elems? {
        AllSentReadable(element, version, v.vs, |v.vs|);
      }
    case CPair(first, second) =>
      WhatIsSentIsReadable(first, version, 0, v.fst);
      WhatIsSentIsReadable(second, version, 0, v.snd);
    case CCase(head, tag, cases) =>
      WhatIsSentIsReadable(head, version, 0, v.fst);
      var k := CaseOf(tag, version, v.fst);
      if k < |cases| {
        WhatIsSentIsReadable(cases[k], version, Last(v.fst), v.snd);
      }
  }

  lemma {:induction false} AllSentReadable(c: Codec, version: int, vs: seq<Value>, n: int)
    requires AllWellFormed(c, version, vs)
    ensures AllReadable(c, version, vs, n)
    decreases c, 1, |vs|
  {
    if vs != [] {
      WhatIsSentIsReadable(c, version, 0, vs[0]);
      AllSentReadable(c, version, vs[1..], n - 1);
    }
  }

  /** Freeing a value that was sent gives back what receiving it took, at every depth. */
  lemma {:induction false} FreeingUndoesReceiving(c: Codec, version: int, context: int, v: Value)
    requires Sized(c) && WellFormed(c, version, context, v)
    ensures Freed(c, version, context, v) == Mem(c, version, v)
    decreases c, 0, 0
  {
    match c
    case CVoid =>
    case CByte =>
    case CWord =>
    case CString =>
    case CPtr(target, size) =>
      if v.Ref? {
        FreeingUndoesReceiving(target, version, 0, v.value);
      }
    case CArray(_, element, size) =>
      if v.Elems? {
        FreeingAll(element, version, v.vs);
      }
    case CPair(first, second) =>
      FreeingUndoesReceiving(first, version, 0, v.fst);
      FreeingUndoesReceiving(second, version, 0, v.snd);
    case CCase(head, tag, cases) =>
      FreeingUndoesReceiving(head, version, 0, v.fst);
      var k := CaseOf(tag, version, v.fst);
      if k < |cases| {
        FreeingUndoesReceiving(cases[k], version, Last(v.fst), v.snd);
      }
  }

  lemma {:induction false} FreeingAll(c: Codec, version: int, vs: seq<Value>)
    requires Sized(c) && AllWellFormed(c, version, vs)
    ensures FreedAll(c, version, vs, |vs|) == MemAll(c, version, vs)
    decreases c, 1, |vs|
  {
    if vs != [] {
      FreeingUndoesReceiving(c, version, 0, vs[0]);
      FreeingAll(c, version, vs[1..]);
    }
  }
}
