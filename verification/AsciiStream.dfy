/** sanei/sanei_codec_ascii.c: the loops that write and read the text of an item. The stream stands for the wire and its
    connection; bytes is what has been written, or what is still to be read. */
module AsciiStream {
  import opened Machine
  import opened WireSpec
  import opened WireIo
  import opened AsciiCodec

  function Pow10(k: nat): int {
    if k == 0 then 1 else 10 * Pow10(k - 1)
  }

  lemma {:induction false} DigitsFit(val: int, k: nat)
    requires IsWord(val) && k > 0 && -Pow10(k) < val < Pow10(k)
    ensures |Digits(val)| <= k
    decreases k
  {
    if Div10(val) != 0 {
      DigitsFit(Div10(val), k - 1);
    }
  }

  class Stream {
    var bytes: seq<Byte>
    var status: int

    constructor (bytes: seq<Byte>)
      ensures this.bytes == bytes && status == 0
    {
      this.bytes, status := bytes, 0;
    }

    /** What a read has done: it has the value and leaves the rest, or it has set the status. */
    ghost predicate Has<T>(r: Read<T>, value: T)
      reads this
    {
      match r
      case Ok(v, rest) => status == 0 && value == v && bytes == rest
      case Bad(e) => status == Errno(e)
    }

    /** skip_ws. */
    method SkipWs()
      requires status == 0
      modifies this
      ensures var rest := SkipSpace(old(bytes));
              if rest == [] then status == Errno(Starved) else status == 0 && bytes == rest
    {
      while bytes != [] && IsSpace(bytes[0])
        invariant status == 0 && SkipSpace(bytes) == SkipSpace(old(bytes))
        decreases |bytes|
      {
        bytes := bytes[1..];
      }
      if bytes == [] {
        status := EINVAL_ERRNO;
      }
    }

    method Next() returns (c: Byte)
      requires status == 0
      modifies this
      ensures if old(bytes) == [] then status == Errno(Starved)
              else status == 0 && c == old(bytes)[0] && bytes == old(bytes)[1..]
    {
      c := 0;
      if bytes == [] {
        status := EINVAL_ERRNO;
      } else {
        c := bytes[0];
        bytes := bytes[1..];
      }
    }

    /** The digits of val, from the end of a local buffer of 16 bytes to the front; i is the last free place. */
    method MakeDigits(buf: array<Byte>, start: int) returns (i: nat)
      requires buf.Length == 16 && IsWord(start)
      modifies buf
      ensures 5 <= i < 15 && buf[i + 1..] == Digits(start)
    {
      i := 15;
      var val := start;
      assert Pow10(10) == 100_0000_0000;
      DigitsFit(val, 10);
      while true
        invariant IsWord(val) && i <= 15
        invariant Digits(start) == Digits(val) + buf[i + 1..] && |Digits(start)| <= 10
        decreases i
      {
        ghost var written := buf[i + 1..];
        var last := (48 + Rem10(val)) as Byte;
        buf[i] := last;
        assert buf[i..] == [last] + written;
        i := i - 1;
        if Div10(val) == 0 {
          return;
        }
        assert Digits(Div10(val)) + [last] + written == Digits(Div10(val)) + buf[i + 1..];
        val := Div10(val);
      }
    }

    /** The local buffer has room for the sign, too. */
    method WriteWord(n: int)
      requires IsWord(n)
      modifies this`bytes
      ensures bytes == old(bytes) + WordText(n)
    {
      hide Digits;
      var buf := new Byte[16];
      var val := if n < 0 then Signed(-n) else n;
      var i := MakeDigits(buf, val);
      if n < 0 {
        buf[i] := MINUS;
        assert buf[i..] == [MINUS] + buf[i + 1..];
        i := i - 1;
      }
      bytes := bytes + buf[i + 1..] + [NEWLINE];
    }

    method ReadAWord() returns (n: int)
      requires status == 0
      modifies this
      ensures Has(ReadWord(old(bytes)), n)
    {
      n := 0;
      ghost var c := SkipSpace(bytes);
      SkipWs();
      if status != 0 {
        return;
      }
      var isNegative := bytes[0] == MINUS;
      if isNegative {
        bytes := bytes[1..];
      }
      var val := 0;
      ghost var digits := bytes;
      while bytes != [] && IsDigit(bytes[0])
        invariant status == 0 && IsWord(val) && ReadDigits(val, bytes) == ReadDigits(0, digits)
        decreases |bytes|
      {
        val := Signed(10 * val + (bytes[0] as int - 48));
        bytes := bytes[1..];
      }
      if bytes == [] {
        status := EINVAL_ERRNO;
        return;
      }
      n := if isNegative then Signed(-val) else val;
    }

    method WriteByte(b: Byte)
      modifies this`bytes
      ensures bytes == old(bytes) + ByteText(b)
    {
      bytes := bytes + [HexDigit(b as int / 16)];
      bytes := bytes + [HexDigit(b as int % 16)];
      bytes := bytes + [NEWLINE];
    }

    /** get_digit: its two calls in get_byte are taken from left to right. */
    method GetDigit() returns (digit: nat)
      requires status == 0
      modifies this
      ensures if old(bytes) == [] then status == Errno(Starved)
              else if HexValue(old(bytes)[0]) == 16 then status == Errno(EINVAL)
              else status == 0 && digit == HexValue(old(bytes)[0]) && bytes == old(bytes)[1..]
    {
      var c := Next();
      digit := 0;
      if status == 0 {
        var lower := if 65 <= c <= 90 then c as int + 32 else c as int;
        var d := (lower - 48) % 0x1_0000_0000;
        if d > 9 {
          d := (d - 39) % 0x1_0000_0000;
        }
        if d > 15 {
          status := EINVAL_ERRNO;
        } else {
          digit := d;
        }
      }
    }

    method ReadAByte() returns (b: Byte)
      requires status == 0
      modifies this
      ensures Has(ReadByte(old(bytes)), b)
    {
      b := 0;
      SkipWs();
      if status != 0 {
        return;
      }
      var high := GetDigit();
      if status != 0 {
        return;
      }
      var low := GetDigit();
      if status == 0 {
        b := (16 * high + low) as Byte;
      }
    }

    method WriteEscaped(s: seq<Byte>)
      modifies this`bytes
      ensures bytes == old(bytes) + Escaped(s)
    {
      assert s[0..] == s;
      for i := 0 to |s|
        invariant bytes + Escaped(s[i..]) == old(bytes) + Escaped(s)
      {
        ghost var before, tail := bytes, Escaped(s[i + 1..]);
        assert s[i..][1..] == s[i + 1..];
        if s[i] == QUOTE || s[i] == BACKSLASH {
          bytes := bytes + [BACKSLASH];
        }
        bytes := bytes + [s[i]];
        assert bytes + tail == before + (bytes[|before|..] + tail);
        assert Escaped(s[i..]) == bytes[|before|..] + tail;
      }
    }

    method WriteString(x: Item)
      requires x.Valid() && (x.String? || x.NullString?)
      modifies this`bytes
      ensures bytes == old(bytes) + x.Text()
    {
      hide Escaped;
      if x.String? {
        bytes := bytes + [QUOTE];
        WriteEscaped(x.s);
        bytes := bytes + [QUOTE];
      } else {
        bytes := bytes + NIL;
      }
      bytes := bytes + [NEWLINE];
    }

    /** The loop over the characters of a string, up to the closing quote. */
    method ReadQuotedChars() returns (str: seq<Byte>)
      requires status == 0
      modifies this
      ensures Has(ReadQuoted(old(bytes)), str)
    {
      str := [];
      var done := false;
      ghost var whole := ReadQuoted(bytes);
      assert whole.Ok? ==> [] + whole.value == whole.value;
      while !done
        invariant status == 0
        invariant if done then whole == Ok(str, bytes)
                  else whole == match ReadQuoted(bytes)
                                case Ok(s, rest) => Ok(str + s, rest)
                                case Bad(e) => Bad(e)
        decreases !done, |bytes|
      {
        ghost var before := bytes;
        var ch := Next();
        if status != 0 {
          return;
        }
        if ch == QUOTE {
          done := true;
          assert str + [] == str;
        } else {
          if ch == BACKSLASH {
            ch := Next();
            if status != 0 {
              return;
            }
            assert bytes == before[2..] && ch == before[1];
          }
          str := Appended(str, ch, before, bytes);
        }
      }
    }

    /** str[len++] = ch */
    method Appended(str: seq<Byte>, ch: Byte, ghost before: seq<Byte>, ghost rest: seq<Byte>) returns (r: seq<Byte>)
      requires before != [] && before[0] != QUOTE
      requires if before[0] == BACKSLASH then |before| > 1 && ch == before[1] && rest == before[2..]
               else ch == before[0] && rest == before[1..]
      ensures r == str + [ch]
      ensures (match ReadQuoted(before) case Ok(s, left) => Ok(str + s, left) case Bad(e) => Bad(e))
           == (match ReadQuoted(rest) case Ok(s, left) => Ok(r + s, left) case Bad(e) => Bad(e))
    {
      r := str + [ch];
      if ReadQuoted(rest).Ok? {
        assert str + ([ch] + ReadQuoted(rest).value) == r + ReadQuoted(rest).value;
      }
    }

    method ReadAString() returns (x: Item)
      requires status == 0
      modifies this
      ensures Has(ReadString(old(bytes)), x)
    {
      x := NullString;
      SkipWs();
      if status != 0 {
        return;
      }
      var ch := Next();
      if ch == QUOTE {
        var str := ReadQuotedChars();
        x := String(CStringOf(str));
      } else if ch == NIL[0] {
        if |bytes| < 4 || bytes[..4] != NIL[1..] {
          status := EINVAL_ERRNO;
          return;
        }
        bytes := bytes[4..];
      } else {
        status := EINVAL_ERRNO;
      }
    }

    method Write(x: Item)
      requires x.Valid()
      modifies this`bytes
      ensures bytes == old(bytes) + x.Text()
    {
      match x {
        case Word(n) => WriteWord(n);
        case Byte(b) => WriteByte(b);
        case _ => WriteString(x);
      }
    }

    method ReadAnItem(k: Kind) returns (x: Item)
      requires status == 0
      modifies this
      ensures Has(ReadItem(k, old(bytes)), x)
    {
      match k {
        case AWord =>
          var n := ReadAWord();
          x := Word(n);
        case AByte =>
          var b := ReadAByte();
          x := Byte(b);
        case AString =>
          x := ReadAString();
      }
    }
  }

  method WriteItems(s: Stream, xs: seq<Item>)
    requires forall i | 0 <= i < |xs| :: xs[i].Valid()
    modifies s`bytes
    ensures s.bytes == old(s.bytes) + Texts(xs)
  {
    hide Item.Text;
    assert xs[0..] == xs;
    for i := 0 to |xs|
      invariant s.bytes + Texts(xs[i..]) == old(s.bytes) + Texts(xs)
    {
      assert xs[i..][1..] == xs[i + 1..];
      ghost var before, tail := s.bytes, Texts(xs[i + 1..]);
      s.Write(xs[i]);
      assert (before + xs[i].Text()) + tail == before + (xs[i].Text() + tail);
    }
  }

  /** r, after some items that have been read already. */
  function AfterItems(ys: seq<Item>, r: Read<seq<Item>>): Read<seq<Item>> {
    match r
    case Ok(zs, rest) => Ok(ys + zs, rest)
    case Bad(e) => Bad(e)
  }

  lemma AfterItem(ys: seq<Item>, x: Item, r: Read<seq<Item>>)
    ensures AfterItems(ys, AfterItems([x], r)) == AfterItems(ys + [x], r)
  {
    if r.Ok? {
      assert ys + ([x] + r.value) == ys + [x] + r.value;
    }
  }

  method ReadTheItems(s: Stream, ks: seq<Kind>) returns (ys: seq<Item>)
    requires s.status == 0
    modifies s
    ensures s.Has(ReadItems(ks, old(s.bytes)), ys)
  {
    hide ReadItem;
    ys := [];
    ghost var whole := ReadItems(ks, s.bytes);
    assert ks[0..] == ks && (whole.Ok? ==> [] + whole.value == whole.value);
    for i := 0 to |ks|
      invariant s.status == 0 && whole == AfterItems(ys, ReadItems(ks[i..], s.bytes))
    {
      assert ks[i..][0] == ks[i] && ks[i..][1..] == ks[i + 1..];
      var x := s.ReadAnItem(ks[i]);
      if s.status != 0 {
        return;
      }
      AfterItem(ys, x, ReadItems(ks[i + 1..], s.bytes));
      ys := ys + [x];
    }
    assert ys + [] == ys;
  }

  /** Writing a list and reading it back gives the same list exactly if the least word is not in it. */
  method WriteAndRead(xs: seq<Item>) returns (ys: seq<Item>, ok: bool)
    requires forall i | 0 <= i < |xs| :: xs[i].Valid()
    ensures ok && ys == xs <==> Word(MIN_WORD) !in xs
  {
    var s := new Stream([]);
    WriteItems(s, xs);
    ListRoundTrip([], xs, []);
    assert [] + Texts(xs) == Texts(xs) == Texts(xs) + [];
    ys := ReadTheItems(s, Kinds(xs));
    ok := s.status == 0;
  }
}
