/** The binary wire format of sanei/sanei_wire.c, sanei/sanei_codec_bin.c and sanei/sanei_net.c, on values.
    A codec function is described by a term (Codec), and what it transfers by a Value. Enc is what it sends,
    Dec what it makes of a stream, Mem what a decoded value occupies and Freed what freeing gives back. */
module WireSpec {

  import opened Machine

  const MAX_MEM: nat := 1024 * 1024

  // ---- Words --------------------------------------------------------------------------------

  /** Four bytes, the most significant one first; the shifts of the original are arithmetic. */
  function WordBytes(n: int): (b: seq<Byte>)
    ensures |b| == 4
  {
    [(n / 0x100_0000 % 0x100) as Byte, (n / 0x1_0000 % 0x100) as Byte, (n / 0x100 % 0x100) as Byte, (n % 0x100) as Byte]
  }

  function WordOf(b: seq<Byte>): (n: int)
    requires |b| >= 4
    ensures IsWord(n)
  {
    var u := b[0] as int * 0x100_0000 + b[1] as int * 0x1_0000 + b[2] as int * 0x100 + b[3] as int;
    if u < 0x8000_0000 then u else u - 0x1_0000_0000
  }

  /** The digits of a word to the base 256. */
  lemma Digits256(n: int)
    requires IsWord(n)
    ensures n == n / 0x100_0000 * 0x100_0000 + n / 0x1_0000 % 0x100 * 0x1_0000 + n / 0x100 % 0x100 * 0x100 + n % 0x100
    ensures n / 0x100_0000 % 0x100 == if n < 0 then n / 0x100_0000 + 0x100 else n / 0x100_0000
  {
    var a, b := n / 0x100, n / 0x1_0000;
    assert b == a / 0x100;
    assert n / 0x100_0000 == b / 0x100;
  }

  lemma WordRoundTrip(n: int, rest: seq<Byte>)
    requires IsWord(n)
    ensures WordOf(WordBytes(n) + rest) == n && (WordBytes(n) + rest)[4..] == rest
  {
    Digits256(n);
  }

  // ---- Codecs and values --------------------------------------------------------------------

  /** How the length of an array is found when it is sent or freed. */
  datatype Count =
    | Stored                     // the caller keeps it beside the array
    | Terminated(nullable: bool) // up to and including the first NULL; nullable if the array may be NULL
    | SelfCounted                // the first word counts the words that follow it
    | OfSize                     // from the size, in bytes, that precedes the array

  /** What selects one of several continuations. */
  datatype Tag = ByConstraint | ByType | ByAction

  datatype Codec =
    | CVoid
    | CByte
    | CWord
    | CString
    | CPtr(target: Codec, size: nat)
    | CArray(count: Count, element: Codec, size: nat)
    | CPair(first: Codec, second: Codec)
    | CCase(head: Codec, tag: Tag, cases: seq<Codec>)

  /** What a codec function finds in memory or puts there; strings are without their terminator. */
  datatype Value =
    | Nothing
    | Num(n: int)
    | Null
    | Str(s: seq<Byte>)
    | Ref(value: Value)
    | Elems(vs: seq<Value>)
    | Pair(fst: Value, snd: Value)

  /** The last word of a record. */
  function Last(v: Value): int {
    match v
    case Num(n) => n
    case Pair(_, Num(n)) => n
    case _ => 0
  }

  /** The last word but one. */
  function LastButOne(v: Value): int {
    if v.Pair? then Last(v.fst) else 0
  }

  const SANE_CONSTRAINT_RANGE := 1
  const SANE_CONSTRAINT_WORD_LIST := 2
  const SANE_CONSTRAINT_STRING_LIST := 3
  const SANE_TYPE_BOOL := 0
  const SANE_TYPE_FIXED := 2
  const SANE_TYPE_STRING := 3
  const SANE_TYPE_GROUP := 5
  const SANE_ACTION_SET_AUTO := 2

  /** The number of the continuation; it may exceed the number of cases, for an unknown option type. */
  function CaseOf(tag: Tag, version: int, head: Value): nat {
    match tag
    case ByConstraint => if 0 < Last(head) <= SANE_CONSTRAINT_STRING_LIST then Last(head) else 0
    case ByType =>
      var t := LastButOne(head);
      if SANE_TYPE_BOOL <= t <= SANE_TYPE_FIXED then 0 else if t == SANE_TYPE_STRING then 1
      else if SANE_TYPE_STRING < t <= SANE_TYPE_GROUP then 2 else 3
    case ByAction => if version < 3 || Last(head) != SANE_ACTION_SET_AUTO then 0 else 1
  }

  /** a / b in C, for b > 0. */
  function Quotient(a: int, b: nat): int
    requires b > 0
  {
    if a >= 0 then a / b else -(-a / b)
  }

  /** The least index of a NULL. */
  function FirstNull(vs: seq<Value>): (k: nat)
    ensures k <= |vs| && (k < |vs| ==> vs[k].Null?) && forall j | 0 <= j < k :: !vs[j].Null?
  {
    if vs == [] || vs[0].Null? then 0 else 1 + FirstNull(vs[1..])
  }

  /** The length that the array v is taken to have; size is the number of bytes of an element and context the
      word before the array. */
  function Length(count: Count, size: nat, context: int, v: Value): int {
    match count
    case Stored => if v.Elems? then |v.vs| else 0
    case Terminated(_) => if v.Elems? then FirstNull(v.vs) + 1 else 0
    case SelfCounted => if v.Elems? && v.vs != [] then Last(v.vs[0]) + 1 else 0
    case OfSize => if size == 0 then 0 else Quotient(context, size)
  }

  /** v is what a function described by c can be given: strings are free of NULs, and an array has the length
      that it is taken to have. */
  predicate WellFormed(c: Codec, version: int, context: int, v: Value)
    decreases c, 0, 0
  {
    match c
    case CVoid => v == Nothing
    case CByte => v.Num? && 0 <= v.n < 256
    case CWord => v.Num? && IsWord(v.n)
    case CString => v.Null? || (v.Str? && |v.s| < 0x7fff_ffff && forall i | 0 <= i < |v.s| :: v.s[i] != 0)
    case CPtr(target, _) => v.Null? || (v.Ref? && WellFormed(target, version, 0, v.value))
    case CArray(count, element, size) =>
      if v.Null? then Length(count, size, context, v) == 0 && count != Terminated(false) && count != SelfCounted
      else v.Elems? && 0 < |v.vs| < 0x8000_0000 && Length(count, size, context, v) == |v.vs|
           && AllWellFormed(element, version, v.vs)
    case CPair(first, second) =>
      v.Pair? && WellFormed(first, version, 0, v.fst) && WellFormed(second, version, 0, v.snd)
    case CCase(head, tag, cases) =>
      v.Pair? && WellFormed(head, version, 0, v.fst)
      && var k := CaseOf(tag, version, v.fst);
         if k < |cases| then WellFormed(cases[k], version, Last(v.fst), v.snd) else v.snd == Nothing
  }

  predicate AllWellFormed(c: Codec, version: int, vs: seq<Value>)
    decreases c, 1, |vs|
  {
    vs == [] || (WellFormed(c, version, 0, vs[0]) && AllWellFormed(c, version, vs[1..]))
  }

  // ---- Sending ------------------------------------------------------------------------------

  /** The bytes sent; valid unless an unknown option type has set the status to EINVAL. */
  datatype Encoded = Encoded(bytes: seq<Byte>, valid: bool)
  {
    /** Nothing is sent once the status is set. */
    function Then(e: Encoded): Encoded {
      if valid then Encoded(bytes + e.bytes, e.valid) else this
    }
  }

  function Enc(c: Codec, version: int, context: int, v: Value): Encoded
    requires WellFormed(c, version, context, v)
    decreases c, 0, 0
  {
    match c
    case CVoid => Encoded([], true)
    case CByte => Encoded([v.n as Byte], true)
    case CWord => Encoded(WordBytes(v.n), true)
    case CString => Encoded(if v.Null? then WordBytes(0) else WordBytes(|v.s| + 1) + v.s + [0], true)
    case CPtr(target, _) =>
      if v.Null? then Encoded(WordBytes(1), true)
      else Encoded(WordBytes(0), true).Then(Enc(target, version, 0, v.value))
    case CArray(_, element, _) =>
      if v.Null? then Encoded(WordBytes(0), true)
      else Encoded(WordBytes(|v.vs|), true).Then(EncAll(element, version, v.vs))
    case CPair(first, second) => Enc(first, version, 0, v.fst).Then(Enc(second, version, 0, v.snd))
    case CCase(head, tag, cases) =>
      var k := CaseOf(tag, version, v.fst);
      Enc(head, version, 0, v.fst).Then(
        if k < |cases| then Enc(cases[k], version, Last(v.fst), v.snd) else Encoded([], false))
  }

  function EncAll(c: Codec, version: int, vs: seq<Value>): Encoded
    requires AllWellFormed(c, version, vs)
    decreases c, 1, |vs|
  {
    if vs == [] then Encoded([], true) else Enc(c, version, 0, vs[0]).Then(EncAll(c, version, vs[1..]))
  }

  // ---- Receiving ----------------------------------------------------------------------------

  datatype Error = ENOMEM | EINVAL | Starved

  /** The value, the rest of the stream and the memory then allocated. */
  datatype Decoded<T> = Got(value: T, rest: seq<Byte>, mem: int) | Failed(error: Error)

  /** The limits on an array of len elements; alloc + len * size is compared as an unsigned number. */
  predicate Refused(len: int, size: nat, alloc: int) {
    len < 0 || len > MAX_MEM || len * size > MAX_MEM || alloc + len * size > MAX_MEM || alloc + len * size < 0
  }

  /** A C string: the bytes before the first NUL. */
  function CStringOf(b: seq<Byte>): (s: seq<Byte>)
    ensures |s| <= |b|
  {
    if b == [] || b[0] == 0 then [] else [b[0]] + CStringOf(b[1..])
  }

  lemma CStringWhole(s: seq<Byte>)
    requires forall i | 0 <= i < |s| :: s[i] != 0
    ensures CStringOf(s) == s
  {
  }

  function Dec(c: Codec, version: int, b: seq<Byte>, alloc: int): Decoded<Value>
    decreases c, 0, 0
  {
    match c
    case CVoid => Got(Nothing, b, alloc)
    case CByte => if |b| < 1 then Failed(Starved) else Got(Num(b[0] as int), b[1..], alloc)
    case CWord => if |b| < 4 then Failed(Starved) else Got(Num(WordOf(b)), b[4..], alloc)
    case CString =>
      if |b| < 4 then Failed(Starved)
      else
        var len := WordOf(b);
        if len == 0 then Got(Null, b[4..], alloc)
        else if Refused(len, 1, alloc) then Failed(ENOMEM)
        else if |b| < 4 + len then Failed(Starved)
        else Got(Str(CStringOf(b[4..3 + len])), b[4 + len..], alloc + len)
    case CPtr(target, size) =>
      if |b| < 4 then Failed(Starved)
      else if WordOf(b) != 0 then Got(Null, b[4..], alloc)
      else if size > MAX_MEM then Failed(ENOMEM)
      else (match Dec(target, version, b[4..], alloc + size)
            case Got(v, rest, a) => Got(Ref(v), rest, a)
            case Failed(e) => Failed(e))
    case CArray(_, element, size) =>
      if |b| < 4 then Failed(Starved)
      else
        var len := WordOf(b);
        if len == 0 then Got(Null, b[4..], alloc)
        else if Refused(len, size, alloc) then Failed(ENOMEM)
        else (match DecAll(element, version, len, b[4..], alloc + len * size)
              case Got(vs, rest, a) => Got(Elems(vs), rest, a)
              case Failed(e) => Failed(e))
    case CPair(first, second) =>
      (match Dec(first, version, b, alloc)
       case Failed(e) => Failed(e)
       case Got(v, rest, a) =>
         match Dec(second, version, rest, a)
         case Failed(e) => Failed(e)
         case Got(w, rest2, a2) => Got(Pair(v, w), rest2, a2))
    case CCase(head, tag, cases) =>
      match Dec(head, version, b, alloc)
      case Failed(e) => Failed(e)
      case Got(v, rest, a) =>
        var k := CaseOf(tag, version, v);
        if k >= |cases| then Failed(EINVAL)
        else match Dec(cases[k], version, rest, a)
             case Failed(e) => Failed(e)
             case Got(w, rest2, a2) => Got(Pair(v, w), rest2, a2)
  }

  function DecAll(c: Codec, version: int, n: nat, b: seq<Byte>, alloc: int): (d: Decoded<seq<Value>>)
    ensures d.Got? ==> |d.value| == n
    decreases c, 1, n
  {
    if n == 0 then Got([], b, alloc)
    else match Dec(c, version, b, alloc)
         case Failed(e) => Failed(e)
         case Got(v, rest, a) =>
           match DecAll(c, version, n - 1, rest, a)
           case Failed(e) => Failed(e)
           case Got(vs, rest2, a2) => Got([v] + vs, rest2, a2)
  }

  // ---- Memory -------------------------------------------------------------------------------

  /** The memory that a decoded value occupies. */
  function Mem(c: Codec, version: int, v: Value): nat
    decreases c, 0, 0
  {
    match c
    case CVoid => 0
    case CByte => 0
    case CWord => 0
    case CString => if v.Str? then |v.s| + 1 else 0
    case CPtr(target, size) => if v.Ref? then size + Mem(target, version, v.value) else 0
    case CArray(_, element, size) => if v.Elems? then |v.vs| * size + MemAll(element, version, v.vs) else 0
    case CPair(first, second) => if v.Pair? then Mem(first, version, v.fst) + Mem(second, version, v.snd) else 0
    case CCase(head, tag, cases) =>
      if v.Pair? then
        Mem(head, version, v.fst)
        + (var k := CaseOf(tag, version, v.fst); if k < |cases| then Mem(cases[k], version, v.snd) else 0)
      else 0
  }

  function MemAll(c: Codec, version: int, vs: seq<Value>): nat
    decreases c, 1, |vs|
  {
    if vs == [] then 0 else Mem(c, version, vs[0]) + MemAll(c, version, vs[1..])
  }

  /** v can be freed: no array looks longer than it is, so that nothing behind its end is touched. What any peer sends
      has the shape that c describes, but an array may look shorter or longer than it was received. */
  predicate Readable(c: Codec, version: int, context: int, v: Value)
    decreases c, 0, 0
  {
    match c
    case CVoid => v == Nothing
    case CByte => v.Num? && 0 <= v.n < 256
    case CWord => v.Num? && IsWord(v.n)
    case CString => v.Null? || v.Str?
    case CPtr(target, size) => v.Null? || (v.Ref? && (size != 0 ==> Readable(target, version, 0, v.value)))
    case CArray(count, element, size) =>
      if v.Null? then count != Terminated(false) && count != SelfCounted
      else v.Elems? && Length(count, size, context, v) <= |v.vs|
           && AllReadable(element, version, v.vs, Length(count, size, context, v))
    case CPair(first, second) =>
      v.Pair? && Readable(first, version, 0, v.fst) && Readable(second, version, 0, v.snd)
    case CCase(head, tag, cases) =>
      v.Pair? && Readable(head, version, 0, v.fst)
      && var k := CaseOf(tag, version, v.fst);
         k < |cases| ==> Readable(cases[k], version, Last(v.fst), v.snd)
  }

  /** The first n values can be freed. */
  predicate AllReadable(c: Codec, version: int, vs: seq<Value>, n: int)
    decreases c, 1, |vs|
  {
    n <= 0 || vs == [] || (Readable(c, version, 0, vs[0]) && AllReadable(c, version, vs[1..], n - 1))
  }

  /** What freeing v gives back. Arrays are as long as Length says, and nothing is freed below a pointer of
      size 0. */
  function Freed(c: Codec, version: int, context: int, v: Value): int
    decreases c, 0, 0
  {
    match c
    case CVoid => 0
    case CByte => 0
    case CWord => 0
    case CString => if v.Str? then |v.s| + 1 else 0
    case CPtr(target, size) => if v.Ref? && size != 0 then size + Freed(target, version, 0, v.value) else 0
    case CArray(count, element, size) =>
      if v.Elems? then
        var len := Length(count, size, context, v);
        len * size + FreedAll(element, version, v.vs, len)
      else 0
    case CPair(first, second) =>
      if v.Pair? then Freed(first, version, 0, v.fst) + Freed(second, version, 0, v.snd) else 0
    case CCase(head, tag, cases) =>
      if v.Pair? then
        Freed(head, version, 0, v.fst)
        + (var k := CaseOf(tag, version, v.fst);
           if k < |cases| then Freed(cases[k], version, Last(v.fst), v.snd) else 0)
      else 0
  }

  /** The same for the first n values. */
  function FreedAll(c: Codec, version: int, vs: seq<Value>, n: int): int
    decreases c, 1, |vs|
  {
    if n <= 0 || vs == [] then 0 else Freed(c, version, 0, vs[0]) + FreedAll(c, version, vs[1..], n - 1)
  }

  // ---- The definitions one step at a time, for proofs that hide them -------------------------

  lemma EncPtr(target: Codec, size: nat, version: int, context: int, v: Value)
    requires WellFormed(CPtr(target, size), version, context, v)
    ensures v.Null? || (v.Ref? && WellFormed(target, version, 0, v.value))
    ensures Enc(CPtr(target, size), version, context, v)
         == if v.Null? then Encoded(WordBytes(1), true)
            else Encoded(WordBytes(0), true).Then(Enc(target, version, 0, v.value))
  {
    hide WordBytes;
  }

  lemma DecPtr(target: Codec, size: nat, version: int, b: seq<Byte>, alloc: int)
    requires |b| >= 4
    ensures Dec(CPtr(target, size), version, b, alloc)
         == if WordOf(b) != 0 then Got(Null, b[4..], alloc)
            else if size > MAX_MEM then Failed(ENOMEM)
            else match Dec(target, version, b[4..], alloc + size)
                 case Got(v, rest, a) => Got(Ref(v), rest, a)
                 case Failed(e) => Failed(e)
  {
    hide WordOf;
  }

  lemma EncArray(count: Count, element: Codec, size: nat, version: int, context: int, v: Value)
    requires WellFormed(CArray(count, element, size), version, context, v)
    ensures v.Null? || (v.Elems? && 0 < |v.vs| < 0x8000_0000 && AllWellFormed(element, version, v.vs))
    ensures Enc(CArray(count, element, size), version, context, v)
         == if v.Null? then Encoded(WordBytes(0), true)
            else Encoded(WordBytes(|v.vs|), true).Then(EncAll(element, version, v.vs))
  {
    hide WordBytes, EncAll, Length;
  }

  lemma DecArray(count: Count, element: Codec, size: nat, version: int, b: seq<Byte>, alloc: int)
    requires |b| >= 4
    ensures Dec(CArray(count, element, size), version, b, alloc)
         == var len := WordOf(b);
            if len == 0 then Got(Null, b[4..], alloc)
            else if Refused(len, size, alloc) then Failed(ENOMEM)
            else match DecAll(element, version, len, b[4..], alloc + len * size)
                 case Got(vs, rest, a) => Got(Elems(vs), rest, a)
                 case Failed(e) => Failed(e)
  {
    hide WordOf, DecAll;
  }

  lemma EncPair(first: Codec, second: Codec, version: int, context: int, v: Value)
    requires WellFormed(CPair(first, second), version, context, v)
    ensures v.Pair? && WellFormed(first, version, 0, v.fst) && WellFormed(second, version, 0, v.snd)
    ensures Enc(CPair(first, second), version, context, v)
         == Enc(first, version, 0, v.fst).Then(Enc(second, version, 0, v.snd))
  {
  }

  lemma DecPair(first: Codec, second: Codec, version: int, b: seq<Byte>, alloc: int)
    ensures Dec(CPair(first, second), version, b, alloc)
         == match Dec(first, version, b, alloc)
            case Failed(e) => Failed(e)
            case Got(x, rest, a) =>
              match Dec(second, version, rest, a)
              case Failed(e) => Failed(e)
              case Got(y, rest2, a2) => Got(Pair(x, y), rest2, a2)
  {
  }

  lemma DecCase(head: Codec, tag: Tag, cases: seq<Codec>, version: int, b: seq<Byte>, alloc: int)
    ensures Dec(CCase(head, tag, cases), version, b, alloc)
         == match Dec(head, version, b, alloc)
            case Failed(e) => Failed(e)
            case Got(x, rest, a) =>
              if CaseOf(tag, version, x) >= |cases| then Failed(EINVAL)
              else match Dec(cases[CaseOf(tag, version, x)], version, rest, a)
                   case Failed(e) => Failed(e)
                   case Got(y, rest2, a2) => Got(Pair(x, y), rest2, a2)
  {
    hide CaseOf;
  }

  lemma EncCase(head: Codec, tag: Tag, cases: seq<Codec>, version: int, context: int, v: Value)
    requires WellFormed(CCase(head, tag, cases), version, context, v)
    ensures v.Pair? && WellFormed(head, version, 0, v.fst)
    ensures var k := CaseOf(tag, version, v.fst);
            && (k < |cases| ==> WellFormed(cases[k], version, Last(v.fst), v.snd))
            && Enc(CCase(head, tag, cases), version, context, v)
               == Enc(head, version, 0, v.fst).Then(
                    if k < |cases| then Enc(cases[k], version, Last(v.fst), v.snd) else Encoded([], false))
  {
    hide CaseOf, Last;
  }

  lemma EncCons(c: Codec, version: int, vs: seq<Value>)
    requires AllWellFormed(c, version, vs) && vs != []
    ensures WellFormed(c, version, 0, vs[0]) && AllWellFormed(c, version, vs[1..])
    ensures EncAll(c, version, vs) == Enc(c, version, 0, vs[0]).Then(EncAll(c, version, vs[1..]))
  {
    hide Enc, WellFormed;
  }

  lemma DecCons(c: Codec, version: int, n: nat, b: seq<Byte>, alloc: int)
    requires n > 0
    ensures DecAll(c, version, n, b, alloc)
         == match Dec(c, version, b, alloc)
            case Failed(e) => Failed(e)
            case Got(v, rest, a) =>
              match DecAll(c, version, n - 1, rest, a)
              case Failed(e) => Failed(e)
              case Got(w, rest2, a2) => Got([v] + w, rest2, a2)
  {
    hide Dec;
  }

  lemma SentArray(count: Count, element: Codec, size: nat, version: int, context: int, v: Value)
    requires WellFormed(CArray(count, element, size), version, context, v)
    ensures v.Null? || (v.Elems? && |v.vs| > 0 && AllWellFormed(element, version, v.vs))
    ensures v.Null? ==> Length(count, size, context, v) == 0
    ensures v.Elems? ==> Length(count, size, context, v) == |v.vs| < 0x8000_0000
  {
    hide Length;
  }

  lemma FreedPtr(target: Codec, size: nat, version: int, context: int, v: Value)
    requires Readable(CPtr(target, size), version, context, v)
    ensures v.Null? || (v.Ref? && (size != 0 ==> Readable(target, version, 0, v.value)))
    ensures Freed(CPtr(target, size), version, context, v)
         == if v.Null? || size == 0 then 0 else size + Freed(target, version, 0, v.value)
  {
  }

  lemma FreedArray(count: Count, element: Codec, size: nat, version: int, context: int, v: Value)
    requires Readable(CArray(count, element, size), version, context, v)
    ensures var len := Length(count, size, context, v);
            && (v.Null? || (v.Elems? && len <= |v.vs| && AllReadable(element, version, v.vs, len)))
            && Freed(CArray(count, element, size), version, context, v)
               == if v.Null? then 0 else len * size + FreedAll(element, version, v.vs, len)
  {
    hide FreedAll, AllReadable, Length;
  }

  lemma FreedPair(first: Codec, second: Codec, version: int, context: int, v: Value)
    requires Readable(CPair(first, second), version, context, v)
    ensures v.Pair? && Readable(first, version, 0, v.fst) && Readable(second, version, 0, v.snd)
    ensures Freed(CPair(first, second), version, context, v)
         == Freed(first, version, 0, v.fst) + Freed(second, version, 0, v.snd)
  {
  }

  lemma FreedCase(head: Codec, tag: Tag, cases: seq<Codec>, version: int, context: int, v: Value)
    requires Readable(CCase(head, tag, cases), version, context, v)
    ensures v.Pair? && Readable(head, version, 0, v.fst)
    ensures var k := CaseOf(tag, version, v.fst);
            && (k < |cases| ==> Readable(cases[k], version, Last(v.fst), v.snd))
            && Freed(CCase(head, tag, cases), version, context, v)
               == Freed(head, version, 0, v.fst)
                  + if k < |cases| then Freed(cases[k], version, Last(v.fst), v.snd) else 0
  {
    hide CaseOf, Last;
  }

  lemma FreedCons(c: Codec, version: int, vs: seq<Value>, n: int)
    requires AllReadable(c, version, vs, n) && vs != [] && n > 0
    ensures Readable(c, version, 0, vs[0]) && AllReadable(c, version, vs[1..], n - 1)
    ensures FreedAll(c, version, vs, n) == Freed(c, version, 0, vs[0]) + FreedAll(c, version, vs[1..], n - 1)
  {
    hide Freed, Readable;
  }
}
