/** sanei/sanei_codec_ascii.c: words, bytes and strings as text, on a stream of bytes. Each item ends with a newline
    that its own decoder leaves; the next decoder skips it. */
module AsciiCodec {
  import opened Machine
  import opened WireSpec

  // ---- The text of an item ------------------------------------------------------------------

  const NEWLINE: Byte := 10
  const SPACE: Byte := 32
  const QUOTE: Byte := 34
  const MINUS: Byte := 45
  const BACKSLASH: Byte := 92
  const NIL: seq<Byte> := [40, 110, 105, 108, 41]

  const MIN_WORD := -0x8000_0000

  /** a % 10 and a / 10 in C, for either sign. */
  function Rem10(a: int): int {
    if a >= 0 then a % 10 else -(-a % 10)
  }

  function Div10(a: int): int {
    if a >= 0 then a / 10 else -(-a / 10)
  }

  /** The digits that the loop makes: those of a number that is not negative; for the one word whose negation is
      negative again, characters before '0'. */
  function Digits(val: int): (s: seq<Byte>)
    requires IsWord(val)
    ensures |s| > 0
    decreases if val < 0 then -val else val
  {
    var last := [(48 + Rem10(val)) as Byte];
    if Div10(val) == 0 then last else Digits(Div10(val)) + last
  }

  function WordText(n: int): seq<Byte>
    requires IsWord(n)
  {
    (if n < 0 then [MINUS] + Digits(Signed(-n)) else Digits(n)) + [NEWLINE]
  }

  function HexDigit(d: nat): Byte
    requires d < 16
  {
    if d < 10 then (48 + d) as Byte else (87 + d) as Byte
  }

  function ByteText(b: Byte): seq<Byte> {
    [HexDigit(b as int / 16), HexDigit(b as int % 16), NEWLINE]
  }

  function Escaped(s: seq<Byte>): seq<Byte> {
    if s == [] then []
    else (if s[0] == QUOTE || s[0] == BACKSLASH then [BACKSLASH, s[0]] else [s[0]]) + Escaped(s[1..])
  }

  datatype Item = Word(n: int) | Byte(b: Byte) | NullString | String(s: seq<Byte>)
  {
    /** Words have 32 bits, and strings end at the first NUL. */
    predicate Valid() {
      match this
      case Word(n) => IsWord(n)
      case Byte(_) => true
      case NullString => true
      case String(s) => forall i | 0 <= i < |s| :: s[i] != 0
    }

    function Text(): seq<Byte>
      requires Valid()
    {
      match this
      case Word(n) => WordText(n)
      case Byte(b) => ByteText(b)
      case NullString => NIL + [NEWLINE]
      case String(s) => [QUOTE] + Escaped(s) + [QUOTE] + [NEWLINE]
    }

    function Kind(): Kind {
      match this
      case Word(_) => AWord
      case Byte(_) => AByte
      case NullString => AString
      case String(_) => AString
    }
  }

  datatype Kind = AWord | AByte | AString

  // ---- Reading an item ----------------------------------------------------------------------

  /** The value and the rest of the stream. */
  datatype Read<T> = Ok(value: T, rest: seq<Byte>) | Bad(error: Error)

  predicate IsSpace(c: Byte) {
    c == SPACE || 9 <= c <= 13
  }

  function SkipSpace(b: seq<Byte>): seq<Byte> {
    if b == [] || !IsSpace(b[0]) then b else SkipSpace(b[1..])
  }

  predicate IsDigit(c: Byte) {
    48 <= c <= 57
  }

  /** Digits up to something else, which must be there. */
  function ReadDigits(val: int, b: seq<Byte>): Read<int>
    requires IsWord(val)
    decreases |b|
  {
    if b == [] then Bad(Starved)
    else if IsDigit(b[0]) then ReadDigits(Signed(10 * val + (b[0] as int - 48)), b[1..])
    else Ok(val, b)
  }

  function ReadWord(b: seq<Byte>): Read<int> {
    var c := SkipSpace(b);
    if c != [] && c[0] == MINUS then
      match ReadDigits(0, c[1..])
      case Ok(n, rest) => Ok(Signed(-n), rest)
      case Bad(e) => Bad(e)
    else ReadDigits(0, c)
  }

  /** The value of a hexadecimal digit, or 16. The arithmetic of get_digit also takes the six characters between
      'Z' and 'a' for the digits 4 to 9. */
  function HexValue(c: Byte): nat {
    if IsDigit(c) then c as int - 48
    else if 91 <= c <= 102 then c as int - 87
    else if 65 <= c <= 70 then c as int - 55
    else 16
  }

  function ReadByte(b: seq<Byte>): Read<Byte> {
    var c := SkipSpace(b);
    if |c| < 1 then Bad(Starved)
    else if HexValue(c[0]) == 16 then Bad(EINVAL)
    else if |c| < 2 then Bad(Starved)
    else if HexValue(c[1]) == 16 then Bad(EINVAL)
    else Ok((16 * HexValue(c[0]) + HexValue(c[1])) as Byte, c[2..])
  }

  /** The characters up to a quote that no backslash precedes. */
  function ReadQuoted(b: seq<Byte>): Read<seq<Byte>> {
    if b == [] || (b[0] == BACKSLASH && |b| == 1) then Bad(Starved)
    else if b[0] == QUOTE then Ok([], b[1..])
    else
      var taken := if b[0] == BACKSLASH then 2 else 1;
      match ReadQuoted(b[taken..])
      case Ok(s, rest) => Ok([b[taken - 1]] + s, rest)
      case Bad(e) => Bad(e)
  }

  function ReadString(b: seq<Byte>): Read<Item> {
    var c := SkipSpace(b);
    if c == [] then Bad(Starved)
    else if c[0] == QUOTE then
      match ReadQuoted(c[1..])
      case Ok(s, rest) => Ok(String(CStringOf(s)), rest)
      case Bad(e) => Bad(e)
    else if c[0] == NIL[0] then
      if |c| < 5 then Bad(Starved) else if c[..5] == NIL then Ok(NullString, c[5..]) else Bad(EINVAL)
    else Bad(EINVAL)
  }

  function ReadItem(k: Kind, b: seq<Byte>): Read<Item> {
    match k
    case AWord =>
      (match ReadWord(b)
       case Ok(n, rest) => Ok(Word(n), rest)
       case Bad(e) => Bad(e))
    case AByte =>
      (match ReadByte(b)
       case Ok(x, rest) => Ok(Byte(x), rest)
       case Bad(e) => Bad(e))
    case AString => ReadString(b)
  }

  // ---- One item -----------------------------------------------------------------------------

  /** One digit d more. */
  lemma DigitReads(val: int, d: int, rest: seq<Byte>)
    requires 0 <= val && 0 <= d < 10 && 10 * val + d < 0x8000_0000
    ensures ReadDigits(val, [(48 + d) as Byte] + rest) == ReadDigits(10 * val + d, rest)
  {
    SignedWord(10 * val + d);
    hide Signed;
    assert ([(48 + d) as Byte] + rest)[1..] == rest;
  }

  lemma {:induction false} DigitsRoundTrip(n: int, rest: seq<Byte>)
    requires 0 <= n < 0x8000_0000
    ensures ReadDigits(0, Digits(n) + rest) == ReadDigits(n, rest)
    decreases n
  {
    hide ReadDigits;
    DigitReads(n / 10, n % 10, rest);
    if n >= 10 {
      var last := [(48 + n % 10) as Byte];
      DigitsRoundTrip(n / 10, last + rest);
      assert Digits(n) + rest == Digits(n / 10) + (last + rest);
    }
  }

  lemma {:induction false} DigitsAreDigits(n: int)
    requires 0 <= n < 0x8000_0000
    ensures forall i | 0 <= i < |Digits(n)| :: IsDigit(Digits(n)[i])
    decreases n
  {
    if n >= 10 {
      DigitsAreDigits(n / 10);
    }
  }

  lemma WordReads(n: int, rest: seq<Byte>)
    requires IsWord(n) && n != MIN_WORD
    ensures ReadWord(WordText(n) + rest) == Ok(n, [NEWLINE] + rest)
  {
    var m := if n < 0 then -n else n;
    assert Signed(m) == m && Signed(-m) == -m;
    var tail := [NEWLINE] + rest;
    DigitsRoundTrip(m, tail);
    DigitsAreDigits(m);
    if n < 0 {
      assert WordText(n) + rest == [MINUS] + (Digits(m) + tail);
    } else {
      assert WordText(n) + rest == Digits(m) + tail;
    }
  }

  /** The first character for a negative number comes before '0'. */
  lemma {:induction false} LeastDigits(val: int)
    requires IsWord(val) && val < 0
    ensures Digits(val)[0] < 48
    decreases -val
  {
    if Div10(val) != 0 {
      LeastDigits(Div10(val));
    }
  }

  lemma NoDigit(b: seq<Byte>)
    requires b != [] && !IsDigit(b[0])
    ensures ReadDigits(0, b) == Ok(0, b)
  {
  }

  /** The least word becomes a minus sign followed by characters that are not digits; it is read as 0. */
  lemma LeastWordReads(n: int, rest: seq<Byte>)
    requires n == MIN_WORD
    ensures ReadWord(WordText(n) + rest).Ok? && ReadWord(WordText(n) + rest).value == 0
  {
    assert Signed(-n) == n;
    LeastDigits(n);
    hide Digits;
    var tail := Digits(n) + [NEWLINE] + rest;
    assert WordText(n) + rest == [MINUS] + tail;
    NoDigit(tail);
    assert ([MINUS] + tail)[1..] == tail;
  }

  lemma HexReads(b: Byte, rest: seq<Byte>)
    ensures ReadByte(ByteText(b) + rest) == Ok(b, [NEWLINE] + rest)
  {
    var high, low := HexDigit(b as int / 16), HexDigit(b as int % 16);
    assert HexValue(high) == b as int / 16 && HexValue(low) == b as int % 16;
    assert ByteText(b) + rest == [high, low] + ([NEWLINE] + rest);
    assert ([high, low] + ([NEWLINE] + rest))[2..] == [NEWLINE] + rest;
  }

  lemma CharReads(c: Byte, tail: seq<Byte>)
    requires ReadQuoted(tail).Ok?
    ensures var r := ReadQuoted(tail);
            ReadQuoted((if c == QUOTE || c == BACKSLASH then [BACKSLASH, c] else [c]) + tail)
              == Ok([c] + r.value, r.rest)
  {
    if c == QUOTE || c == BACKSLASH {
      assert ([BACKSLASH, c] + tail)[2..] == tail;
    } else {
      assert ([c] + tail)[1..] == tail;
    }
  }

  lemma EscapedParts(s: seq<Byte>)
    ensures s == [] ==> Escaped(s) == []
    ensures s != [] ==>
              Escaped(s) == (if s[0] == QUOTE || s[0] == BACKSLASH then [BACKSLASH, s[0]] else [s[0]]) + Escaped(s[1..])
  {
  }

  lemma QuoteReads(rest: seq<Byte>)
    ensures ReadQuoted([QUOTE] + rest) == Ok([], rest)
  {
    assert ([QUOTE] + rest)[1..] == rest;
  }

  lemma {:induction false} QuotedReads(s: seq<Byte>, rest: seq<Byte>)
    ensures ReadQuoted(Escaped(s) + [QUOTE] + rest) == Ok(s, rest)
  {
    hide ReadQuoted, Escaped;
    EscapedParts(s);
    if s == [] {
      QuoteReads(rest);
      assert [] + [QUOTE] + rest == [QUOTE] + rest;
    } else {
      var c := if s[0] == QUOTE || s[0] == BACKSLASH then [BACKSLASH, s[0]] else [s[0]];
      QuotedReads(s[1..], rest);
      CharReads(s[0], Escaped(s[1..]) + [QUOTE] + rest);
      assert Escaped(s) + [QUOTE] + rest == c + (Escaped(s[1..]) + [QUOTE] + rest);
      assert [s[0]] + s[1..] == s;
    }
  }

  lemma StringReads(x: Item, rest: seq<Byte>)
    requires x.Valid() && (x.String? || x.NullString?)
    ensures ReadString(x.Text() + rest) == Ok(x, [NEWLINE] + rest)
  {
    var tail := [NEWLINE] + rest;
    match x
    case NullString =>
      assert x.Text() + rest == NIL + tail;
      assert (NIL + tail)[..5] == NIL && (NIL + tail)[5..] == tail;
    case String(s) =>
      var inner := Escaped(s) + [QUOTE] + tail;
      assert x.Text() + rest == [QUOTE] + inner && ([QUOTE] + inner)[1..] == inner;
      QuotedReads(s, tail);
      CStringWhole(s);
  }

  /** An item other than the least word is read as it was written, and its newline is left. */
  lemma ItemReads(x: Item, rest: seq<Byte>)
    requires x.Valid() && x != Word(MIN_WORD)
    ensures ReadItem(x.Kind(), x.Text() + rest) == Ok(x, [NEWLINE] + rest)
  {
    match x
    case Word(n) => WordReads(n, rest);
    case Byte(b) => HexReads(b, rest);
    case NullString => StringReads(x, rest);
    case String(_) => StringReads(x, rest);
  }

  // ---- The text itself ----------------------------------------------------------------------

  /** The number that decimal digits make, the first one being the most significant. */
  function Decimal(s: seq<Byte>): int {
    if s == [] then 0 else 10 * Decimal(s[..|s| - 1]) + (s[|s| - 1] as int - 48)
  }

  /** Words are written as decimal numbers without leading zeros. */
  lemma {:induction false} WordIsDecimal(n: int)
    requires 0 <= n < 0x8000_0000
    ensures var s := Digits(n);
            && Decimal(s) == n && (forall i | 0 <= i < |s| :: 48 <= s[i] <= 57) && (s[0] == 48 ==> n == 0)
    ensures WordText(n) == Digits(n) + [10] && (n > 0 ==> WordText(-n) == [45] + Digits(n) + [10])
    decreases n
  {
    SignedWord(n);
    if n >= 10 {
      WordIsDecimal(n / 10);
      var s, last := Digits(n), [(48 + n % 10) as Byte];
      assert s == Digits(n / 10) + last && s[..|s| - 1] == Digits(n / 10);
    } else {
      assert Digits(n)[..0] == [];
    }
  }

  /** The bytes 0xa3 and 0x0c, a NULL string, and a string with a letter, a quote and a backslash. */
  lemma SomeTexts()
    ensures NullString.Text() == [40, 110, 105, 108, 41, 10]
    ensures Byte(163).Text() == [97, 51, 10] && Byte(12).Text() == [48, 99, 10]
    ensures String([97, 34, 92]).Text() == [34, 97, 92, 34, 92, 92, 34, 10]
  {
    var s: seq<Byte> := [97, 34, 92];
    assert s[1..] == [34, 92] && s[1..][1..] == [92] && s[1..][1..][1..] == [];
    assert Escaped([92]) == [92, 92] && Escaped([34, 92]) == [92, 34] + [92, 92];
  }

  // ---- Lists of items -----------------------------------------------------------------------

  function Texts(xs: seq<Item>): seq<Byte>
    requires forall i | 0 <= i < |xs| :: xs[i].Valid()
  {
    if xs == [] then [] else xs[0].Text() + Texts(xs[1..])
  }

  function Kinds(xs: seq<Item>): (ks: seq<Kind>)
    ensures |ks| == |xs|
  {
    if xs == [] then [] else [xs[0].Kind()] + Kinds(xs[1..])
  }

  function ReadItems(ks: seq<Kind>, b: seq<Byte>): Read<seq<Item>> {
    if ks == [] then Ok([], b)
    else match ReadItem(ks[0], b)
         case Bad(e) => Bad(e)
         case Ok(x, rest) =>
           match ReadItems(ks[1..], rest)
           case Bad(e) => Bad(e)
           case Ok(xs, rest2) => Ok([x] + xs, rest2)
  }

  /** The newline that the item before has left makes no difference. */
  lemma NewlineSkipped(k: Kind, b: seq<Byte>)
    ensures ReadItem(k, [NEWLINE] + b) == ReadItem(k, b)
  {
    assert ([NEWLINE] + b)[1..] == b;
    assert SkipSpace([NEWLINE] + b) == SkipSpace(b);
    hide ReadQuoted, ReadDigits, SkipSpace;
  }

  /** A list comes back as it was written exactly if the least word is not in it. before is what has been left of
      an item before the list. */
  lemma {:induction false} ListRoundTrip(before: seq<Byte>, xs: seq<Item>, rest: seq<Byte>)
    requires forall i | 0 <= i < |xs| :: xs[i].Valid()
    requires before == [] || before == [NEWLINE]
    ensures (exists left :: ReadItems(Kinds(xs), before + Texts(xs) + rest) == Ok(xs, left)) <==> Word(MIN_WORD) !in xs
    ensures Word(MIN_WORD) !in xs ==>
              ReadItems(Kinds(xs), before + Texts(xs) + rest)
              == Ok(xs, (if xs == [] then before else [NEWLINE]) + rest)
    decreases |xs|
  {
    hide ReadItem, Item.Text;
    var b := before + Texts(xs) + rest;
    if xs == [] {
      assert b == before + rest;
    } else {
      var x, tail := xs[0], Texts(xs[1..]) + rest;
      assert b == before + (x.Text() + tail);
      if before == [NEWLINE] {
        NewlineSkipped(x.Kind(), x.Text() + tail);
      } else {
        assert before + (x.Text() + tail) == x.Text() + tail;
      }
      assert ReadItem(Kinds(xs)[0], b) == ReadItem(x.Kind(), x.Text() + tail);
      if x == Word(MIN_WORD) {
        LeastItemReads(x, tail);
        assert xs[0] == x && x in xs;
      } else {
        ItemReads(x, tail);
        assert [NEWLINE] + tail == [NEWLINE] + Texts(xs[1..]) + rest;
        ListRoundTrip([NEWLINE], xs[1..], rest);
        assert [x] + xs[1..] == xs;
        assert Kinds(xs)[1..] == Kinds(xs[1..]);
        ConsEither(x, xs, Kinds(xs), b, [NEWLINE] + tail);
      }
    }
  }

  lemma LeastItemReads(x: Item, rest: seq<Byte>)
    requires x == Word(MIN_WORD)
    ensures var r := ReadItem(AWord, x.Text() + rest); r.Ok? && r.value == Word(0)
  {
    hide ReadWord, WordText;
    LeastWordReads(x.n, rest);
  }

  lemma ConsEither(x: Item, xs: seq<Item>, ks: seq<Kind>, b: seq<Byte>, tail: seq<Byte>)
    requires xs != [] && xs[0] == x && ks != [] && ReadItem(ks[0], b) == Ok(x, tail)
    ensures forall left :: ReadItems(ks, b) == Ok(xs, left) <==> ReadItems(ks[1..], tail) == Ok(xs[1..], left)
    ensures x != Word(MIN_WORD) ==> (Word(MIN_WORD) in xs <==> Word(MIN_WORD) in xs[1..])
  {
    hide ReadItem;
    assert xs == [x] + xs[1..];
  }
}
