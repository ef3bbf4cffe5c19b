/** sanei/sanei_wire.c, sanei/sanei_codec_bin.c: one traversal sends, receives or frees a value, as the direction of the
    wire says. Whatever the connection does, sending adds Enc of the value to the stream, receiving yields
    what Dec makes of the stream, and freeing gives back Freed. */
module WireTransfer {
  import opened Machine
  import opened WireSpec
  import opened WireIo

  // ---- Steps, on values ---------------------------------------------------------------------

  /** The state of a wire. */
  datatype Snap = Snap(direction: Direction, version: int, status: int, mem: int, sent: seq<Byte>, emitted: seq<Byte>,
                       inbox: seq<Byte>, pending: seq<Byte>, reliable: bool)

  ghost function View(w: Wire): Snap
    reads w, w.io, w.buffer
    requires w.Valid()
  {
    Snap(w.direction, w.version, w.status, w.allocatedMemory, w.io.sent, w.Emitted(), w.io.inbox,
         w.Pending(), w.io.Reliable())
  }

  /** From s to t, e is sent. If it fails, what has been sent is a beginning of what should have been, and the
      connection is to blame unless e is invalid. */
  ghost predicate Sends(s: Snap, e: Encoded, t: Snap) {
    && t.mem == s.mem && t.inbox == s.inbox && (s.reliable ==> t.reliable)
    && if s.status != 0 then
         (t.status == s.status || t.status == EINVAL_ERRNO) && t.sent == s.sent && t.emitted == s.emitted
       else if t.status == 0 then e.valid && t.emitted == s.emitted + e.bytes
       else
         && t.sent <= s.emitted + e.bytes
         && (s.reliable ==> !e.valid && t.status == EINVAL_ERRNO && t.emitted == s.emitted + e.bytes)
  }

  /** From s to t, d is received, r being the value. If it fails, d has failed with that error, or the connection. */
  ghost predicate Receives<T>(s: Snap, d: Decoded<T>, r: T, t: Snap) {
    && t.sent == s.sent && (s.reliable ==> t.reliable)
    && if s.status != 0 then t.status == s.status
       else if t.status == 0 then d == Got(r, t.pending, t.mem)
       else s.reliable ==> d.Failed? && t.status == Errno(d.error)
  }

  /** From s to t, k bytes are given back and nothing is sent or received. */
  ghost predicate Frees(s: Snap, k: int, t: Snap) {
    && t == s.(mem := s.mem - k, status := t.status)
    && (t.status == s.status || t.status == EINVAL_ERRNO)
  }

  /** What a codec function can be given. */
  predicate Given(direction: Direction, c: Codec, version: int, context: int, v: Value) {
    match direction
    case ENCODE => WellFormed(c, version, context, v)
    case DECODE => true
    case FREE => Readable(c, version, context, v)
  }

  ghost predicate Transfers(c: Codec, context: int, v: Value, s: Snap, r: Value, t: Snap) {
    && t.direction == s.direction && t.version == s.version
    && match s.direction
       case ENCODE =>
         WellFormed(c, s.version, context, v) && r == v && Sends(s, Enc(c, s.version, context, v), t)
       case DECODE => Receives(s, Dec(c, s.version, s.pending, s.mem), r, t)
       case FREE =>
         Readable(c, s.version, context, v) && r == v && Frees(s, Freed(c, s.version, context, v), t)
  }

  // ---- Bytes and words ----------------------------------------------------------------------

  /** sanei_w_space for a byte or a word. */
  method Reserve(w: Wire, n: nat)
    requires w.Valid() && n <= 4
    modifies w`curr, w`end, w`status, w.io, w.buffer
    ensures w.Valid() && (w.status == 0 && w.direction != FREE ==> n <= w.end - w.curr)
    ensures var s, t := old(View(w)), View(w);
            && t == s.(status := t.status, sent := t.sent, emitted := t.emitted, inbox := t.inbox, pending := t.pending,
                       reliable := t.reliable)
            && (s.reliable ==> t.reliable)
            && if s.status != 0 || s.direction == FREE then t == s
               else if s.direction == ENCODE then
                 t.inbox == s.inbox
                 && if t.status == 0 then t.emitted == s.emitted else t.sent <= s.emitted && !s.reliable
               else
                 && t.sent == s.sent && t.pending == s.pending
                 && (t.status == 0 ==> n <= |s.pending|)
                 && (t.status != 0 && s.reliable ==> |s.pending| < n && t.status == EINVAL_ERRNO)
  {
    w.Space(n);
  }

  lemma ByteTransfers(s: Snap, v: Value, r: Value, m: Snap, t: Snap)
    requires Given(s.direction, CByte, s.version, 0, v) && (s.direction != DECODE ==> r == v)
    requires m == s.(status := m.status, sent := m.sent, emitted := m.emitted, inbox := m.inbox, pending := m.pending,
                     reliable := m.reliable)
    requires s.reliable ==> m.reliable
    requires if s.status != 0 || s.direction == FREE then m == s && t == m
             else match s.direction
                  case ENCODE =>
                    && m.inbox == s.inbox
                    && if m.status != 0 then m.sent <= s.emitted && !s.reliable && t == m
                       else m.emitted == s.emitted
                            && t == m.(emitted := m.emitted + [v.n as Byte], pending := t.pending)
                  case DECODE =>
                    && m.sent == s.sent && m.pending == s.pending
                    && if m.status != 0 then t == m && (s.reliable ==> s.pending == [] && m.status == EINVAL_ERRNO)
                       else s.pending != [] && r == Num(s.pending[0] as int)
                            && t == m.(pending := s.pending[1..], emitted := t.emitted)
                  case FREE => true
    ensures Transfers(CByte, 0, v, s, r, t)
  {
  }

  method WByte(w: Wire, v: Value) returns (r: Value)
    requires w.Valid() && Given(w.direction, CByte, w.version, 0, v)
    modifies w`curr, w`end, w`status, w.io, w.buffer
    ensures w.Valid() && Transfers(CByte, 0, v, old(View(w)), r, View(w))
  {
    hide Dec, Enc, Freed, Transfers;
    ghost var s := View(w);
    r := v;
    Reserve(w, 1);
    ghost var m := View(w);
    if w.status == 0 {
      match w.direction {
        case ENCODE =>
          w.Put([v.n as Byte]);
        case DECODE =>
          var bytes := w.Take(1);
          r := Num(bytes[0] as int);
        case FREE =>
      }
    }
    ByteTransfers(s, v, r, m, View(w));
  }

  lemma SameWord(a: seq<Byte>, b: seq<Byte>)
    requires 4 <= |a| <= |b| && a == b[..|a|]
    ensures WordOf(a) == WordOf(b)
  {
  }

  lemma WordMoves(s: Snap, n: int, r: int, m: Snap, t: Snap)
    requires s.direction != DECODE ==> IsWord(n) && r == n
    requires m == s.(status := m.status, sent := m.sent, emitted := m.emitted, inbox := m.inbox, pending := m.pending,
                     reliable := m.reliable)
    requires s.reliable ==> m.reliable
    requires if s.status != 0 || s.direction == FREE then m == s && t == m
             else match s.direction
                  case ENCODE =>
                    && m.inbox == s.inbox
                    && if m.status != 0 then m.sent <= s.emitted && !s.reliable && t == m
                       else m.emitted == s.emitted
                            && t == m.(emitted := m.emitted + WordBytes(n), pending := t.pending)
                  case DECODE =>
                    && m.sent == s.sent && m.pending == s.pending
                    && if m.status != 0 then t == m && (s.reliable ==> |s.pending| < 4 && m.status == EINVAL_ERRNO)
                       else |s.pending| >= 4 && r == WordOf(s.pending)
                            && t == m.(pending := s.pending[4..], emitted := t.emitted)
                  case FREE => true
    ensures Transfers(CWord, 0, Num(n), s, Num(r), t)
  {
    hide WordOf, WordBytes;
  }

  method WWord(w: Wire, n: int) returns (r: int)
    requires w.Valid() && (w.direction != DECODE ==> IsWord(n))
    modifies w`curr, w`end, w`status, w.io, w.buffer
    ensures w.Valid() && Transfers(CWord, 0, Num(n), old(View(w)), Num(r), View(w))
  {
    hide Dec, Enc, Freed, Transfers, WordOf;
    ghost var s := View(w);
    r := n;
    Reserve(w, 4);
    ghost var m := View(w);
    if w.status == 0 {
      match w.direction {
        case ENCODE =>
          w.Put([(n / 0x100_0000 % 0x100) as Byte, (n / 0x1_0000 % 0x100) as Byte, (n / 0x100 % 0x100) as Byte,
                 (n % 0x100) as Byte]);
        case DECODE =>
          var bytes := w.Take(4);
          r := WordOf(bytes);
          SameWord(bytes, m.pending);
        case FREE =>
      }
    }
    WordMoves(s, n, r, m, View(w));
  }

  // ---- Joining steps ------------------------------------------------------------------------

  lemma SendsThen(s: Snap, e: Encoded, m: Snap, f: Encoded, t: Snap)
    requires Sends(s, e, m) && Sends(m, f, t)
    ensures Sends(s, e.Then(f), t)
  {
    assert (s.emitted + e.bytes) + f.bytes == s.emitted + (e.bytes + f.bytes);
  }

  lemma SendsStopped(s: Snap, e: Encoded, f: Encoded, t: Snap)
    requires Sends(s, e, t) && t.status != 0
    ensures Sends(s, e.Then(f), t)
  {
    assert (s.emitted + e.bytes) + f.bytes == s.emitted + (e.bytes + f.bytes);
  }

  lemma SendsNothing(s: Snap)
    ensures Sends(s, Encoded([], true), s)
  {
    assert s.emitted + [] == s.emitted;
  }

  lemma ThenAssociates(e: Encoded, f: Encoded, g: Encoded)
    ensures e.Then(f).Then(g) == e.Then(f.Then(g))
  {
    assert (e.bytes + f.bytes) + g.bytes == e.bytes + (f.bytes + g.bytes);
  }

  lemma ThenNothing(e: Encoded)
    ensures Encoded([], true).Then(e) == e && e.Then(Encoded([], true)) == e
  {
    assert [] + e.bytes == e.bytes && e.bytes + [] == e.bytes;
  }

  // ---- Arrays -------------------------------------------------------------------------------

  /** The length of an array with elements of that size, received within the limits on memory. */
  function DecLength(size: nat, b: seq<Byte>, alloc: int): (d: Decoded<int>)
    ensures d.Got? ==> d.value >= 0
  {
    if |b| < 4 then Failed(Starved)
    else
      var len := WordOf(b);
      if len == 0 then Got(0, b[4..], alloc)
      else if Refused(len, size, alloc) then Failed(ENOMEM)
      else Got(len, b[4..], alloc + len * size)
  }

  /** The first part of sanei_w_array: send or receive the length; when receiving, check and allocate. */
  method WLength(w: Wire, len: int, size: nat) returns (r: int)
    requires w.Valid() && w.direction != FREE && (w.direction == ENCODE ==> IsWord(len))
    modifies w`curr, w`end, w`status, w`allocatedMemory, w.io, w.buffer
    ensures w.Valid() && w.direction == old(w.direction)
    ensures w.direction == ENCODE ==> r == len && Sends(old(View(w)), Encoded(WordBytes(len), true), View(w))
    ensures w.direction == DECODE ==>
              Receives(old(View(w)), DecLength(size, old(View(w)).pending, old(View(w)).mem), r, View(w))
    ensures w.status == 0 && w.direction == DECODE ==> 0 <= r <= MAX_MEM
  {
    r := WWord(w, len);
    if w.status != 0 {
      return;
    }
    if w.direction == DECODE && r != 0 {
      if r < 0 || r > MAX_MEM || r * size > MAX_MEM || w.allocatedMemory + r * size > MAX_MEM
         || w.allocatedMemory + r * size < 0 {
        w.status := ENOMEM_ERRNO;
        return;
      }
      w.allocatedMemory := w.allocatedMemory + r * size;
    }
  }

  // ---- Strings ------------------------------------------------------------------------------

  function DecBytes(n: nat, b: seq<Byte>, alloc: int): Decoded<seq<Byte>> {
    if |b| < n then Failed(Starved) else Got(b[..n], b[n..], alloc)
  }

  method SendBytes(w: Wire, bytes: seq<Byte>)
    requires w.Valid() && w.direction == ENCODE && w.status == 0
    modifies w`curr, w`end, w`status, w.io, w.buffer
    ensures w.Valid() && Sends(old(View(w)), Encoded(bytes, true), View(w))
  {
    ghost var s := View(w);
    SendsNothing(s);
    for i := 0 to |bytes|
      invariant w.Valid() && w.status == 0 && w.direction == ENCODE && Sends(s, Encoded(bytes[..i], true), View(w))
    {
      ghost var m := View(w);
      var v := WByte(w, Num(bytes[i] as int));
      assert bytes[..i] + [bytes[i]] == bytes[..i + 1];
      SendsThen(s, Encoded(bytes[..i], true), m, Encoded([bytes[i]], true), View(w));
      if w.status != 0 {
        SendsStopped(s, Encoded(bytes[..i + 1], true), Encoded(bytes[i + 1..], true), View(w));
        assert bytes[..i + 1] + bytes[i + 1..] == bytes;
        return;
      }
    }
    assert bytes[..|bytes|] == bytes;
  }

  lemma ByteReceived(s: Snap, v: Value, t: Snap)
    requires s.direction == DECODE && s.status == 0 && Transfers(CByte, 0, Nothing, s, v, t)
    ensures t.direction == DECODE && t.sent == s.sent && (s.reliable ==> t.reliable)
    ensures if t.status == 0 then v.Num? && 0 <= v.n < 256 && s.pending == [v.n as Byte] + t.pending && t.mem == s.mem
            else s.reliable ==> s.pending == [] && t.status == Errno(Starved)
  {
  }

  method ReceiveBytes(w: Wire, n: nat) returns (bytes: seq<Byte>)
    requires w.Valid() && w.direction == DECODE && w.status == 0
    modifies w`curr, w`end, w`status, w.io, w.buffer
    ensures w.Valid() && Receives(old(View(w)), DecBytes(n, old(View(w)).pending, old(View(w)).mem), bytes, View(w))
  {
    hide Dec, Enc, Freed, WellFormed, Readable, Transfers;
    ghost var s := View(w);
    bytes := [];
    for i := 0 to n
      invariant w.Valid() && w.status == 0 && w.direction == DECODE && |bytes| == i
      invariant s.pending == bytes + View(w).pending && w.allocatedMemory == s.mem
      invariant View(w).sent == s.sent && (s.reliable ==> View(w).reliable)
    {
      ghost var m := View(w);
      var v := WByte(w, Nothing);
      ByteReceived(m, v, View(w));
      if w.status != 0 {
        return;
      }
      OneMore(bytes, v.n as Byte, View(w).pending);
      bytes := bytes + [v.n as Byte];
    }
    assert s.pending[..n] == bytes && s.pending[n..] == View(w).pending;
  }

  lemma OneMore(b: seq<Byte>, x: Byte, rest: seq<Byte>)
    ensures b + ([x] + rest) == (b + [x]) + rest
  {
  }

  lemma StringSent(s: Snap, version: int, context: int, v: Value, t: Snap)
    requires s.direction == ENCODE && t.direction == ENCODE && s.version == version == t.version
    requires WellFormed(CString, version, context, v)
    requires if v.Null? then Sends(s, Encoded(WordBytes(0), true), t)
             else Sends(s, Encoded(WordBytes(|v.s| + 1) + (v.s + [0]), true), t)
    ensures Transfers(CString, context, v, s, v, t)
  {
    if v.Str? {
      assert WordBytes(|v.s| + 1) + (v.s + [0]) == WordBytes(|v.s| + 1) + v.s + [0];
    }
  }

  lemma StringReceived(s: Snap, m: Snap, len: int, t: Snap, bytes: seq<Byte>)
    requires s.status == m.status == 0 && len > 0
    requires Receives(s, DecLength(1, s.pending, s.mem), len, m)
    requires Receives(m, DecBytes(len, m.pending, m.mem), bytes, t)
    ensures t.status == 0 ==> |bytes| == len
    ensures Receives(s, Dec(CString, s.version, s.pending, s.mem),
                     if t.status == 0 then Str(CStringOf(bytes[..len - 1])) else Nothing, t)
  {
    assert m.pending == s.pending[4..];
    if t.status == 0 {
      assert s.pending[4..][..len][..len - 1] == s.pending[4..3 + len];
      assert s.pending[4..][len..] == s.pending[4 + len..];
    }
  }

  /** bin_w_string: an array of bytes, the last of which is the terminator. */
  method WString(w: Wire, ghost context: int, v: Value) returns (r: Value)
    requires w.Valid() && Given(w.direction, CString, w.version, context, v)
    modifies w`curr, w`end, w`status, w`allocatedMemory, w.io, w.buffer
    ensures w.Valid() && Transfers(CString, context, v, old(View(w)), r, View(w))
  {
    ghost var s := View(w);
    r := v;
    match w.direction {
      case FREE =>
        if v.Str? {
          w.allocatedMemory := w.allocatedMemory - (|v.s| + 1);
        }
      case ENCODE =>
        var len := WLength(w, if v.Null? then 0 else |v.s| + 1, 1);
        ghost var m := View(w);
        if v.Str? {
          if w.status == 0 {
            SendBytes(w, v.s + [0]);
            SendsThen(s, Encoded(WordBytes(len), true), m, Encoded(v.s + [0], true), View(w));
          } else {
            SendsStopped(s, Encoded(WordBytes(len), true), Encoded(v.s + [0], true), View(w));
          }
        }
        StringSent(s, w.version, context, v, View(w));
      case DECODE =>
        r := Nothing;
        var len := WLength(w, 0, 1);
        if w.status != 0 {
          return;
        }
        if len == 0 {
          r := Null;
        } else {
          ghost var m := View(w);
          var bytes := ReceiveBytes(w, len);
          StringReceived(s, m, len, View(w), bytes);
          if w.status == 0 {
            r := Str(CStringOf(bytes[..len - 1]));
          }
        }
    }
  }

  // ---- The forms that have parts ------------------------------------------------------------

  function Fst(v: Value): Value {
    if v.Pair? then v.fst else Nothing
  }

  function Snd(v: Value): Value {
    if v.Pair? then v.snd else Nothing
  }

  lemma PairSent(first: Codec, second: Codec, context: int, v: Value, s: Snap, a: Value, m: Snap, b: Value, t: Snap)
    requires s.direction == ENCODE && Given(ENCODE, CPair(first, second), s.version, context, v)
    requires Transfers(first, 0, Fst(v), s, a, m) && Transfers(second, 0, Snd(v), m, b, t)
    ensures Transfers(CPair(first, second), context, v, s, Pair(a, b), t)
  {
    hide Dec, Enc, Freed, WellFormed, Receives, Frees;
    EncPair(first, second, s.version, context, v);
    SendsThen(s, Enc(first, s.version, 0, v.fst), m, Enc(second, s.version, 0, v.snd), t);
    hide Sends;
  }

  lemma PairReceived(first: Codec, second: Codec, context: int, v: Value, s: Snap, a: Value, m: Snap, b: Value, t: Snap)
    requires s.direction == DECODE && Given(DECODE, CPair(first, second), s.version, context, v)
    requires Transfers(first, 0, Fst(v), s, a, m) && Transfers(second, 0, Snd(v), m, b, t)
    ensures Transfers(CPair(first, second), context, v, s, Pair(a, b), t)
  {
    hide Dec, Enc, Freed, WellFormed, Sends, Frees;
    DecPair(first, second, s.version, s.pending, s.mem);
  }

  lemma PairFreed(first: Codec, second: Codec, context: int, v: Value, s: Snap, a: Value, m: Snap, b: Value, t: Snap)
    requires s.direction == FREE && Given(FREE, CPair(first, second), s.version, context, v)
    requires Transfers(first, 0, Fst(v), s, a, m) && Transfers(second, 0, Snd(v), m, b, t)
    ensures Transfers(CPair(first, second), context, v, s, Pair(a, b), t)
  {
    hide Dec, Enc, Freed, Readable, Sends, Receives;
    FreedPair(first, second, s.version, context, v);
  }

  lemma PairTransfers(first: Codec, second: Codec, context: int, v: Value, s: Snap, a: Value, m: Snap, b: Value,
                      t: Snap)
    requires Given(s.direction, CPair(first, second), s.version, context, v)
    requires Transfers(first, 0, Fst(v), s, a, m) && Transfers(second, 0, Snd(v), m, b, t)
    ensures Transfers(CPair(first, second), context, v, s, Pair(a, b), t)
  {
    hide Given, Transfers;
    match s.direction
    case ENCODE => PairSent(first, second, context, v, s, a, m, b, t);
    case DECODE => PairReceived(first, second, context, v, s, a, m, b, t);
    case FREE => PairFreed(first, second, context, v, s, a, m, b, t);
  }

  /** From m on, the continuation that the head a selects is transferred; there may be none. */
  ghost predicate Continues(tag: Tag, cases: seq<Codec>, v: Value, a: Value, m: Snap, b: Value, t: Snap) {
    var k := CaseOf(tag, m.version, a);
    if k < |cases| then Transfers(cases[k], Last(a), Snd(v), m, b, t)
    else t == m.(status := EINVAL_ERRNO) && b == Snd(v)
  }

  lemma CaseSent(head: Codec, tag: Tag, cases: seq<Codec>, context: int, v: Value, s: Snap, a: Value, m: Snap,
                 b: Value, t: Snap)
    requires s.direction == ENCODE && Given(ENCODE, CCase(head, tag, cases), s.version, context, v)
    requires Transfers(head, 0, Fst(v), s, a, m)
    requires Continues(tag, cases, v, a, m, b, t)
    requires m.sent <= m.emitted
    ensures Transfers(CCase(head, tag, cases), context, v, s, Pair(a, b), t)
  {
    hide Dec, Enc, Freed, WellFormed, CaseOf, Last, Receives, Frees;
    EncCase(head, tag, cases, s.version, context, v);
    var e, k := Enc(head, s.version, 0, v.fst), CaseOf(tag, s.version, a);
    if k < |cases| {
      SendsThen(s, e, m, Enc(cases[k], s.version, Last(a), v.snd), t);
    } else {
      InvalidSent(s, e, m, t);
    }
    hide Sends;
  }

  lemma CaseReceived(head: Codec, tag: Tag, cases: seq<Codec>, context: int, v: Value, s: Snap, a: Value, m: Snap,
                     b: Value, t: Snap)
    requires s.direction == DECODE && Given(DECODE, CCase(head, tag, cases), s.version, context, v)
    requires Transfers(head, 0, Fst(v), s, a, m)
    requires if m.status != 0 then t == m else Continues(tag, cases, v, a, m, b, t)
    ensures Transfers(CCase(head, tag, cases), context, v, s, Pair(a, b), t)
  {
    hide Dec, Enc, Freed, WellFormed, CaseOf, Last, Sends, Frees;
    DecCase(head, tag, cases, s.version, s.pending, s.mem);
  }

  lemma CaseFreed(head: Codec, tag: Tag, cases: seq<Codec>, context: int, v: Value, s: Snap, a: Value, m: Snap,
                  b: Value, t: Snap)
    requires s.direction == FREE && Given(FREE, CCase(head, tag, cases), s.version, context, v)
    requires Transfers(head, 0, Fst(v), s, a, m)
    requires Continues(tag, cases, v, a, m, b, t)
    ensures Transfers(CCase(head, tag, cases), context, v, s, Pair(a, b), t)
  {
    hide Dec, Enc, Freed, Readable, CaseOf, Last, Sends, Receives;
    FreedCase(head, tag, cases, s.version, context, v);
  }

  /** The head has been transferred, and then the continuation that it selects, unless there is none. */
  lemma CaseTransfers(head: Codec, tag: Tag, cases: seq<Codec>, context: int, v: Value, s: Snap, a: Value, m: Snap,
                      b: Value, t: Snap)
    requires Given(s.direction, CCase(head, tag, cases), s.version, context, v)
    requires Transfers(head, 0, Fst(v), s, a, m) && m.sent <= m.emitted
    requires if s.direction == DECODE && m.status != 0 then t == m else Continues(tag, cases, v, a, m, b, t)
    ensures Transfers(CCase(head, tag, cases), context, v, s, Pair(a, b), t)
  {
    hide Given, Transfers, Continues;
    match s.direction
    case ENCODE => CaseSent(head, tag, cases, context, v, s, a, m, b, t);
    case DECODE => CaseReceived(head, tag, cases, context, v, s, a, m, b, t);
    case FREE => CaseFreed(head, tag, cases, context, v, s, a, m, b, t);
  }

  lemma InvalidSent(s: Snap, e: Encoded, m: Snap, t: Snap)
    requires Sends(s, e, m) && m.sent <= m.emitted && t == m.(status := EINVAL_ERRNO)
    ensures Sends(s, e.Then(Encoded([], false)), t)
  {
    assert e.bytes + [] == e.bytes;
  }

  /** Behind the flag that says whether it is NULL. */
  lemma PtrTransfers(target: Codec, size: nat, context: int, v: Value, s: Snap, flag: int, m: Snap, r: Value, t: Snap)
    requires Given(s.direction, CPtr(target, size), s.version, context, v)
    requires m.direction == s.direction && m.version == s.version && t.direction == s.direction
             && t.version == s.version
    requires match s.direction
             case ENCODE =>
               && flag == (if v.Null? then 1 else 0) && Sends(s, Encoded(WordBytes(flag), true), m) && r == v
               && if m.status != 0 || v.Null? then t == m else Transfers(target, 0, v.value, m, v.value, t)
             case DECODE =>
               && Receives(s, Dec(CWord, s.version, s.pending, s.mem), Num(flag), m)
               && if m.status != 0 then t == m
                  else if flag != 0 then t == m && r == Null
                  else if size > MAX_MEM then t == m.(status := ENOMEM_ERRNO)
                  else r.Ref? && Transfers(target, 0, Nothing, m.(mem := m.mem + size), r.value, t)
             case FREE =>
               && r == v
               && if v.Null? || size == 0 then t == s
                  else Transfers(target, 0, v.value, s, v.value, m) && t == m.(mem := m.mem - size)
    ensures Transfers(CPtr(target, size), context, v, s, r, t)
  {
    match s.direction
    case ENCODE =>
      hide Dec, Enc, Freed, WellFormed, Readable, WordBytes;
      EncPtr(target, size, s.version, context, v);
      if v.Ref? {
        var e := Enc(target, s.version, 0, v.value);
        if m.status != 0 {
          SendsStopped(s, Encoded(WordBytes(0), true), e, t);
        } else {
          SendsThen(s, Encoded(WordBytes(0), true), m, e, t);
        }
      }
    case DECODE =>
      PtrReceived(target, size, s, flag, m, r, t);
    case FREE =>
      hide Dec, Enc, Freed, WellFormed, Readable;
      FreedPtr(target, size, s.version, context, v);
  }

  lemma PtrReceived(target: Codec, size: nat, s: Snap, flag: int, m: Snap, r: Value, t: Snap)
    requires s.direction == m.direction == DECODE && m.version == s.version
    requires Receives(s, Dec(CWord, s.version, s.pending, s.mem), Num(flag), m)
    requires if m.status != 0 then t == m
             else if flag != 0 then t == m && r == Null
             else if size > MAX_MEM then t == m.(status := ENOMEM_ERRNO)
             else r.Ref? && Transfers(target, 0, Nothing, m.(mem := m.mem + size), r.value, t)
    ensures Receives(s, Dec(CPtr(target, size), s.version, s.pending, s.mem), r, t)
  {
    if |s.pending| < 4 {
      assert Dec(CWord, s.version, s.pending, s.mem) == Failed(Starved);
    } else {
      assert Dec(CWord, s.version, s.pending, s.mem) == Got(Num(WordOf(s.pending)), s.pending[4..], s.mem);
      hide Dec, WordOf, Enc, Freed, WellFormed, Readable;
      DecPtr(target, size, s.version, s.pending, s.mem);
    }
  }

  lemma ArraySent(count: Count, element: Codec, size: nat, context: int, v: Value, s: Snap, t: Snap)
    requires s.direction == ENCODE && t.direction == ENCODE && t.version == s.version
    requires WellFormed(CArray(count, element, size), s.version, context, v)
    requires v.Null? || (v.Elems? && AllWellFormed(element, s.version, v.vs))
    requires if v.Null? then Sends(s, Encoded(WordBytes(0), true), t)
             else Sends(s, Encoded(WordBytes(|v.vs|), true).Then(EncAll(element, s.version, v.vs)), t)
    ensures Transfers(CArray(count, element, size), context, v, s, v, t)
  {
    hide Dec, Enc, Freed, WellFormed, Readable, WordBytes, EncAll, AllWellFormed;
    EncArray(count, element, size, s.version, context, v);
  }

  lemma ArrayReceived(count: Count, element: Codec, size: nat, context: int, v: Value, s: Snap, len: int, m: Snap,
                      r: Value, t: Snap)
    requires s.direction == DECODE && t.direction == DECODE && t.version == s.version
    requires Receives(s, DecLength(size, s.pending, s.mem), len, m)
    requires if m.status != 0 then t == m
             else if len == 0 then t == m && r == Null
             else len > 0 && r.Elems? && Receives(m, DecAll(element, s.version, len, m.pending, m.mem), r.vs, t)
    ensures Transfers(CArray(count, element, size), context, v, s, r, t)
  {
    hide Dec, Enc, Freed, WellFormed, Readable, DecAll, DecLength;
    DecByLength(count, element, size, s.version, s.pending, s.mem);
  }

  lemma DecByLength(count: Count, element: Codec, size: nat, version: int, b: seq<Byte>, alloc: int)
    ensures Dec(CArray(count, element, size), version, b, alloc)
         == match DecLength(size, b, alloc)
            case Failed(e) => Failed(e)
            case Got(len, rest, a) =>
              if len == 0 then Got(Null, rest, a)
              else
                match DecAll(element, version, len, rest, a)
                case Got(vs, rest2, a2) => Got(Elems(vs), rest2, a2)
                case Failed(e) => Failed(e)
  {
    hide WordOf, DecAll, Refused;
  }

  lemma FreedNone(element: Codec, version: int, v: Value)
    ensures v.Elems? ==> FreedAll(element, version, v.vs, 0) == 0
  {
  }

  lemma ArrayFreed(count: Count, element: Codec, size: nat, context: int, v: Value, s: Snap, m: Snap, t: Snap)
    requires s.direction == FREE && Readable(CArray(count, element, size), s.version, context, v)
    requires var len := Length(count, size, context, v);
             if v.Null? || len == 0 then t == s
             else v.Elems? && Frees(s, FreedAll(element, s.version, v.vs, len), m) && t == m.(mem := m.mem - len * size)
    ensures Transfers(CArray(count, element, size), context, v, s, v, t)
  {
    hide Dec, Enc, Freed, WellFormed, Readable, FreedAll, AllReadable, Length;
    FreedNone(element, s.version, v);
    FreedArray(count, element, size, s.version, context, v);
  }

  /** The length that a caller of sanei_w_array passes when it sends or frees v. */
  method ArrayLength(count: Count, size: nat, context: int, v: Value) returns (len: int)
    ensures len == Length(count, size, context, v)
  {
    match count {
      case Stored =>
        len := if v.Elems? then |v.vs| else 0;
      case Terminated(_) =>
        len := 0;
        if v.Elems? {
          while len < |v.vs| && !v.vs[len].Null?
            invariant 0 <= len <= |v.vs| && FirstNull(v.vs) == len + FirstNull(v.vs[len..])
          {
            assert v.vs[len..][1..] == v.vs[len + 1..];
            len := len + 1;
          }
          len := len + 1;
        }
      case SelfCounted =>
        len := if v.Elems? && v.vs != [] then Last(v.vs[0]) + 1 else 0;
      case OfSize =>
        len := if size == 0 then 0 else Quotient(context, size);
    }
  }

  /** The elements of an array that is sent. */
  method SendElements(w: Wire, element: Codec, vs: seq<Value>)
    requires w.Valid() && w.direction == ENCODE && w.status == 0 && AllWellFormed(element, w.version, vs)
    modifies w`curr, w`end, w`status, w`allocatedMemory, w.io, w.buffer
    ensures w.Valid() && w.direction == ENCODE && Sends(old(View(w)), EncAll(element, w.version, vs), View(w))
    decreases element, 1
  {
    hide Dec, Enc, Freed, WellFormed, Readable;
    ghost var s, e := View(w), Encoded([], true);
    SendsNothing(s);
    ThenNothing(EncAll(element, w.version, vs));
    assert vs[0..] == vs;
    for i := 0 to |vs|
      invariant w.Valid() && w.direction == ENCODE && w.status == 0 && Sends(s, e, View(w))
      invariant AllWellFormed(element, w.version, vs[i..])
      invariant e.Then(EncAll(element, w.version, vs[i..])) == EncAll(element, w.version, vs)
    {
      ghost var m, rest := View(w), vs[i..];
      EncCons(element, w.version, rest);
      assert rest[0] == vs[i] && rest[1..] == vs[i + 1..];
      ghost var f := Enc(element, w.version, 0, vs[i]);
      var v := Transfer(w, element, 0, vs[i]);
      SendsThen(s, e, m, f, View(w));
      ThenAssociates(e, f, EncAll(element, w.version, rest[1..]));
      e := e.Then(f);
      if w.status != 0 {
        SendsStopped(s, e, EncAll(element, w.version, rest[1..]), View(w));
        return;
      }
    }
    ThenNothing(e);
  }

  /** d, after some values that have been received already. */
  function After(vs: seq<Value>, d: Decoded<seq<Value>>): Decoded<seq<Value>> {
    match d
    case Failed(e) => Failed(e)
    case Got(us, rest, a) => Got(vs + us, rest, a)
  }

  lemma AfterOne(vs: seq<Value>, v: Value, d: Decoded<seq<Value>>)
    ensures After(vs, After([v], d)) == After(vs + [v], d)
  {
    if d.Got? {
      assert vs + ([v] + d.value) == vs + [v] + d.value;
    }
  }

  lemma TransferReceives(c: Codec, context: int, v: Value, s: Snap, r: Value, t: Snap)
    requires s.direction == DECODE && Transfers(c, context, v, s, r, t)
    ensures t.direction == DECODE && Receives(s, Dec(c, s.version, s.pending, s.mem), r, t)
  {
    hide Dec;
  }

  lemma DecNothing(element: Codec, version: int, bytes: seq<Byte>, alloc: int, vs: seq<Value>)
    ensures DecAll(element, version, 0, bytes, alloc) == Got([], bytes, alloc)
    ensures After(vs, DecAll(element, version, 0, bytes, alloc)) == Got(vs, bytes, alloc)
  {
    assert vs + [] == vs;
  }

  lemma AfterNothing(d: Decoded<seq<Value>>)
    ensures After([], d) == d
  {
    assert d.Got? ==> [] + d.value == d.value;
  }

  /** One more element has been received, after vs and with left still to come. */
  lemma ElementReceived(element: Codec, left: nat, vs: seq<Value>, v: Value, whole: Decoded<seq<Value>>,
                        s: Snap, m: Snap, t: Snap)
    requires left > 0 && s.status == m.status == 0 && m.direction == DECODE && m.sent == s.sent
    requires s.reliable ==> m.reliable
    requires whole == After(vs, DecAll(element, m.version, left, m.pending, m.mem))
    requires Transfers(element, 0, Nothing, m, v, t)
    ensures t.direction == DECODE && t.version == m.version && t.sent == s.sent && (s.reliable ==> t.reliable)
    ensures if t.status != 0 then Receives(s, whole, vs, t)
            else whole == After(vs + [v], DecAll(element, m.version, left - 1, t.pending, t.mem))
  {
    DecCons(element, m.version, left, m.pending, m.mem);
    hide Dec, DecAll, Enc, Freed, WellFormed, Readable;
    AfterOne(vs, v, DecAll(element, m.version, left - 1, t.pending, t.mem));
  }

  /** The elements of an array that is received. */
  method ReceiveElements(w: Wire, element: Codec, n: nat) returns (vs: seq<Value>)
    requires w.Valid() && w.direction == DECODE && w.status == 0
    modifies w`curr, w`end, w`status, w`allocatedMemory, w.io, w.buffer
    ensures w.Valid() && w.direction == DECODE
    ensures Receives(old(View(w)), DecAll(element, w.version, n, old(View(w)).pending, old(View(w)).mem), vs, View(w))
    decreases element, 1
  {
    hide Dec, DecAll, Enc, Freed, WellFormed, Readable, Transfers, After;
    ghost var s := View(w);
    ghost var whole := DecAll(element, w.version, n, s.pending, s.mem);
    vs := [];
    AfterNothing(whole);
    for i := 0 to n
      invariant w.Valid() && w.direction == DECODE && w.status == 0
      invariant View(w).sent == s.sent && (s.reliable ==> View(w).reliable)
      invariant whole == After(vs, DecAll(element, w.version, n - i, View(w).pending, View(w).mem))
    {
      ghost var m := View(w);
      var v := Transfer(w, element, 0, Nothing);
      ElementReceived(element, n - i, vs, v, whole, s, m, View(w));
      if w.status != 0 {
        return;
      }
      vs := vs + [v];
    }
    DecNothing(element, w.version, View(w).pending, View(w).mem, vs);
  }

  /** The first n elements of an array that is freed. */
  method FreeElements(w: Wire, element: Codec, vs: seq<Value>, n: int)
    requires w.Valid() && w.direction == FREE && n <= |vs| && AllReadable(element, w.version, vs, n)
    modifies w`curr, w`end, w`status, w`allocatedMemory, w.io, w.buffer
    ensures w.Valid() && Frees(old(View(w)), FreedAll(element, w.version, vs, n), View(w))
    decreases element, 1
  {
    hide Dec, Enc, Freed, WellFormed, Readable;
    ghost var s, k := View(w), 0;
    assert vs[0..] == vs;
    var i := 0;
    while i < n
      invariant 0 <= i && (i <= n || n < 0 == i)
      invariant w.Valid() && Frees(s, k, View(w)) && i <= |vs| && AllReadable(element, w.version, vs[i..], n - i)
      invariant k + FreedAll(element, w.version, vs[i..], n - i) == FreedAll(element, w.version, vs, n)
    {
      ghost var rest := vs[i..];
      FreedCons(element, w.version, rest, n - i);
      assert rest[0] == vs[i] && rest[1..] == vs[i + 1..];
      var v := Transfer(w, element, 0, vs[i]);
      k := k + Freed(element, w.version, 0, vs[i]);
      i := i + 1;
    }
  }

  /** sanei_w_array. */
  method WArray(w: Wire, count: Count, element: Codec, size: nat, context: int, v: Value) returns (r: Value)
    requires w.Valid() && Given(w.direction, CArray(count, element, size), w.version, context, v)
    modifies w`curr, w`end, w`status, w`allocatedMemory, w.io, w.buffer
    ensures w.Valid() && Transfers(CArray(count, element, size), context, v, old(View(w)), r, View(w))
    decreases element, 2
  {
    hide Dec, Enc, Freed, WellFormed, Readable, Transfers, EncAll, DecAll, FreedAll, AllWellFormed, AllReadable, Length;
    ghost var s := View(w);
    r := v;
    match w.direction {
      case FREE =>
        FreedArray(count, element, size, w.version, context, v);
        ghost var m := s;
        var len := ArrayLength(count, size, context, v);
        if len != 0 && !v.Null? {
          FreeElements(w, element, v.vs, len);
          m := View(w);
          w.allocatedMemory := w.allocatedMemory - len * size;
        }
        ArrayFreed(count, element, size, context, v, s, m, View(w));
      case ENCODE =>
        SentArray(count, element, size, w.version, context, v);
        var len := ArrayLength(count, size, context, v);
        len := WLength(w, len, size);
        if v.Elems? {
          ghost var m, e := View(w), Encoded(WordBytes(len), true);
          if w.status == 0 {
            SendElements(w, element, v.vs);
            SendsThen(s, e, m, EncAll(element, w.version, v.vs), View(w));
          } else {
            SendsStopped(s, e, EncAll(element, w.version, v.vs), View(w));
          }
        }
        ArraySent(count, element, size, context, v, s, View(w));
      case DECODE =>
        r := Nothing;
        var len := WLength(w, 0, size);
        ghost var m := View(w);
        if w.status == 0 && len != 0 {
          var vs := ReceiveElements(w, element, len);
          r := Elems(vs);
        } else if w.status == 0 {
          r := Null;
        }
        ArrayReceived(count, element, size, context, v, s, len, m, r, View(w));
    }
  }

  lemma WordTransfers(s: Snap, n: int, r: int, t: Snap)
    requires Transfers(CWord, 0, Num(n), s, Num(r), t)
    ensures t.direction == s.direction && t.version == s.version
    ensures s.direction == ENCODE ==> r == n && Sends(s, Encoded(WordBytes(n), true), t)
    ensures s.direction == DECODE ==> Receives(s, Dec(CWord, s.version, s.pending, s.mem), Num(r), t)
  {
    hide WordBytes;
  }

  /** sanei_w_ptr. */
  method WPtr(w: Wire, target: Codec, size: nat, context: int, v: Value) returns (r: Value)
    requires w.Valid() && Given(w.direction, CPtr(target, size), w.version, context, v)
    modifies w`curr, w`end, w`status, w`allocatedMemory, w.io, w.buffer
    ensures w.Valid() && Transfers(CPtr(target, size), context, v, old(View(w)), r, View(w))
    decreases target, 2
  {
    hide Dec, Enc, Freed, WellFormed, Readable;
    ghost var s := View(w);
    r := v;
    if w.direction == ENCODE {
      EncPtr(target, size, w.version, context, v);
    }
    if w.direction == FREE {
      FreedPtr(target, size, w.version, context, v);
      ghost var m := s;
      if !v.Null? && size != 0 {
        r := Transfer(w, target, 0, v.value);
        m := View(w);
        w.allocatedMemory := w.allocatedMemory - size;
      }
      r := v;
      PtrTransfers(target, size, context, v, s, 0, m, r, View(w));
      return;
    }
    var isNull := WWord(w, if v.Null? then 1 else 0);
    ghost var m := View(w);
    WordTransfers(s, if v.Null? then 1 else 0, isNull, m);
    hide Transfers, Sends, Receives, WordBytes;
    if w.status == 0 {
      if isNull != 0 {
        r := Null;
      } else if w.direction == ENCODE {
        r := Transfer(w, target, 0, v.value);
        r := v;
      } else if size > MAX_MEM {
        w.status := ENOMEM_ERRNO;
      } else {
        w.allocatedMemory := w.allocatedMemory + size;
        r := Transfer(w, target, 0, Nothing);
        r := Ref(r);
      }
    }
    PtrTransfers(target, size, context, v, s, isNull, m, r, View(w));
  }

  /** What a codec function does with a value: in C, a call of the function. After a failure the rest of the
      traversal has no effect. */
  method Transfer(w: Wire, c: Codec, context: int, v: Value) returns (r: Value)
    requires w.Valid() && Given(w.direction, c, w.version, context, v)
    modifies w`curr, w`end, w`status, w`allocatedMemory, w.io, w.buffer
    ensures w.Valid() && Transfers(c, context, v, old(View(w)), r, View(w))
    decreases c, 0
  {
    ghost var s := View(w);
    match c {
      case CVoid =>
        r := Nothing;
        SendsNothing(s);
      case CByte =>
        r := WByte(w, v);
      case CWord =>
        var n := WWord(w, if v.Num? then v.n else 0);
        r := Num(n);
      case CString =>
        r := WString(w, context, v);
      case CPtr(target, size) =>
        r := WPtr(w, target, size, context, v);
      case CArray(count, element, size) =>
        r := WArray(w, count, element, size, context, v);
      case CPair(first, second) =>
        if w.direction == ENCODE {
          EncPair(first, second, w.version, context, v);
        } else if w.direction == FREE {
          FreedPair(first, second, w.version, context, v);
        }
        var a := Transfer(w, first, 0, Fst(v));
        ghost var m := View(w);
        var b := Transfer(w, second, 0, Snd(v));
        r := Pair(a, b);
        PairTransfers(first, second, context, v, s, a, m, b, View(w));
      case CCase(head, tag, cases) =>
        r := TransferCase(w, head, tag, cases, context, v);
    }
  }

  method TransferCase(w: Wire, head: Codec, tag: Tag, cases: seq<Codec>, context: int, v: Value) returns (r: Value)
    requires w.Valid() && Given(w.direction, CCase(head, tag, cases), w.version, context, v)
    modifies w`curr, w`end, w`status, w`allocatedMemory, w.io, w.buffer
    ensures w.Valid() && Transfers(CCase(head, tag, cases), context, v, old(View(w)), r, View(w))
    decreases CCase(head, tag, cases), -1
  {
    hide Dec, Enc, Freed, WellFormed, Readable, CaseOf, Last, Receives, Frees;
    ghost var s := View(w);
    if w.direction == ENCODE {
      EncCase(head, tag, cases, w.version, context, v);
    } else if w.direction == FREE {
      FreedCase(head, tag, cases, w.version, context, v);
    }
    var a := Transfer(w, head, 0, Fst(v));
    ghost var m := View(w);
    var b := Snd(v);
    if w.direction != DECODE || w.status == 0 {
      var k := CaseOf(tag, w.version, a);
      if k < |cases| {
        b := Transfer(w, cases[k], Last(a), Snd(v));
      } else {
        w.status := EINVAL_ERRNO;
      }
    }
    r := Pair(a, b);
    CaseTransfers(head, tag, cases, context, v, s, a, m, b, View(w));
  }
}
