/** The MD5 message-digest algorithm as RFC 1321 defines it: sections 3.1 to 3.5, one message at a
    time, with no buffer, no counter and no unrolled rounds. lib/md5.c is proved against this. */
module Rfc1321 {
  type byte = bv8
  type word = bv32

  /** The four-word buffer of section 3.3. */
  datatype State = State(a: word, b: word, c: word, d: word)

  const InitialState := State(0x67452301, 0xefcdab89, 0x98badcfe, 0x10325476)

  // ---- Section 3.4: one 64-byte block -------------------------------------------------------

  function F(x: word, y: word, z: word): word { (x & y) | (!x & z) }

  function G(x: word, y: word, z: word): word { (x & z) | (y & !z) }

  function H(x: word, y: word, z: word): word { x ^ y ^ z }

  function I(x: word, y: word, z: word): word { y ^ (x | !z) }

  /** The round function of step i (counted from 0). */
  function Mix(i: nat, x: word, y: word, z: word): word {
    if i < 16 then F(x, y, z) else if i < 32 then G(x, y, z) else if i < 48 then H(x, y, z) else I(x, y, z)
  }

  /** One line of the tables of section 3.4: the input word X[k] it adds, the rotation amount s and the
      constant T[i], which is the integer part of 2^32 * abs(sin(i)), i from 1 to 64. */
  datatype Operation = Operation(k: nat, s: word, t: word)
  {
    predicate Valid() { k < 16 && 0 < s < 32 }
  }

  function Round1(j: nat): (op: Operation)
    requires j < 16
    ensures op.Valid()
  {
    match j
    case 0 => Operation(0, 7, 0xd76aa478)
    case 1 => Operation(1, 12, 0xe8c7b756)
    case 2 => Operation(2, 17, 0x242070db)
    case 3 => Operation(3, 22, 0xc1bdceee)
    case 4 => Operation(4, 7, 0xf57c0faf)
    case 5 => Operation(5, 12, 0x4787c62a)
    case 6 => Operation(6, 17, 0xa8304613)
    case 7 => Operation(7, 22, 0xfd469501)
    case 8 => Operation(8, 7, 0x698098d8)
    case 9 => Operation(9, 12, 0x8b44f7af)
    case 10 => Operation(10, 17, 0xffff5bb1)
    case 11 => Operation(11, 22, 0x895cd7be)
    case 12 => Operation(12, 7, 0x6b901122)
    case 13 => Operation(13, 12, 0xfd987193)
    case 14 => Operation(14, 17, 0xa679438e)
    case _ => Operation(15, 22, 0x49b40821)
  }

  function Round2(j: nat): (op: Operation)
    requires j < 16
    ensures op.Valid()
  {
    match j
    case 0 => Operation(1, 5, 0xf61e2562)
    case 1 => Operation(6, 9, 0xc040b340)
    case 2 => Operation(11, 14, 0x265e5a51)
    case 3 => Operation(0, 20, 0xe9b6c7aa)
    case 4 => Operation(5, 5, 0xd62f105d)
    case 5 => Operation(10, 9, 0x02441453)
    case 6 => Operation(15, 14, 0xd8a1e681)
    case 7 => Operation(4, 20, 0xe7d3fbc8)
    case 8 => Operation(9, 5, 0x21e1cde6)
    case 9 => Operation(14, 9, 0xc33707d6)
    case 10 => Operation(3, 14, 0xf4d50d87)
    case 11 => Operation(8, 20, 0x455a14ed)
    case 12 => Operation(13, 5, 0xa9e3e905)
    case 13 => Operation(2, 9, 0xfcefa3f8)
    case 14 => Operation(7, 14, 0x676f02d9)
    case _ => Operation(12, 20, 0x8d2a4c8a)
  }

  function Round3(j: nat): (op: Operation)
    requires j < 16
    ensures op.Valid()
  {
    match j
    case 0 => Operation(5, 4, 0xfffa3942)
    case 1 => Operation(8, 11, 0x8771f681)
    case 2 => Operation(11, 16, 0x6d9d6122)
    case 3 => Operation(14, 23, 0xfde5380c)
    case 4 => Operation(1, 4, 0xa4beea44)
    case 5 => Operation(4, 11, 0x4bdecfa9)
    case 6 => Operation(7, 16, 0xf6bb4b60)
    case 7 => Operation(10, 23, 0xbebfbc70)
    case 8 => Operation(13, 4, 0x289b7ec6)
    case 9 => Operation(0, 11, 0xeaa127fa)
    case 10 => Operation(3, 16, 0xd4ef3085)
    case 11 => Operation(6, 23, 0x04881d05)
    case 12 => Operation(9, 4, 0xd9d4d039)
    case 13 => Operation(12, 11, 0xe6db99e5)
    case 14 => Operation(15, 16, 0x1fa27cf8)
    case _ => Operation(2, 23, 0xc4ac5665)
  }

  function Round4(j: nat): (op: Operation)
    requires j < 16
    ensures op.Valid()
  {
    match j
    case 0 => Operation(0, 6, 0xf4292244)
    case 1 => Operation(7, 10, 0x432aff97)
    case 2 => Operation(14, 15, 0xab9423a7)
    case 3 => Operation(5, 21, 0xfc93a039)
    case 4 => Operation(12, 6, 0x655b59c3)
    case 5 => Operation(3, 10, 0x8f0ccc92)
    case 6 => Operation(10, 15, 0xffeff47d)
    case 7 => Operation(1, 21, 0x85845dd1)
    case 8 => Operation(8, 6, 0x6fa87e4f)
    case 9 => Operation(15, 10, 0xfe2ce6e0)
    case 10 => Operation(6, 15, 0xa3014314)
    case 11 => Operation(13, 21, 0x4e0811a1)
    case 12 => Operation(4, 6, 0xf7537e82)
    case 13 => Operation(11, 10, 0xbd3af235)
    case 14 => Operation(2, 15, 0x2ad7d2bb)
    case _ => Operation(9, 21, 0xeb86d391)
  }

  function OperationAt(i: nat): (op: Operation)
    requires i < 64
    ensures op.Valid()
  {
    if i < 16 then Round1(i) else if i < 32 then Round2(i - 16)
    else if i < 48 then Round3(i - 32) else Round4(i - 48)
  }

  /** X <<< s: w rotated left by s bit positions. */
  function Rotate(w: word, s: word): word
    requires 0 < s < 32
  {
    (w << s) | (w >> (32 - s))
  }

  /** The operation all four rounds share: b + ((a + f + x + t) <<< s), f being the value of the round function. */
  function Combine(f: word, a: word, b: word, x: word, s: word, t: word): word
    requires 0 < s < 32
  {
    b + Rotate(a + f + x + t, s)
  }

  /** The four registers after steps 0, 1, ..., i, in the order in which the next step reads them: each
      step replaces one register and the roles a, b, c, d move on by one. */
  function After(s: State, x: seq<word>, i: nat): State
    requires |x| == 16 && i < 64
    decreases i, 1
  {
    var p := if i == 0 then s else After(s, x, i - 1);
    State(p.d, Stored(s, x, i), p.b, p.c)
  }

  /** The word that step i stores. */
  function Stored(s: State, x: seq<word>, i: nat): word
    requires |x| == 16 && i < 64
    decreases i, 0
  {
    var p := if i == 0 then s else After(s, x, i - 1);
    var op := OperationAt(i);
    Combine(Mix(i, p.b, p.c, p.d), p.a, p.b, x[op.k], op.s, op.t)
  }

  /** Bytes make words low-order byte first (section 2). */
  function WordOf(b0: byte, b1: byte, b2: byte, b3: byte): word {
    (b0 as word) | ((b1 as word) << 8) | ((b2 as word) << 16) | ((b3 as word) << 24)
  }

  function WordAt(block: seq<byte>, i: nat): word
    requires 4 * i + 4 <= |block|
  {
    WordOf(block[4 * i], block[4 * i + 1], block[4 * i + 2], block[4 * i + 3])
  }

  function WordsOf(block: seq<byte>): (x: seq<word>)
    requires |block| == 64
    ensures |x| == 16
  {
    seq(16, i requires 0 <= i < 16 => WordAt(block, i))
  }

  function Plus(p: State, q: State): State {
    State(p.a + q.a, p.b + q.b, p.c + q.c, p.d + q.d)
  }

  /** One block: the 64 steps, and then each register is increased by the value it had before the block. */
  function Compress(s: State, block: seq<byte>): State
    requires |block| == 64
  {
    var x := WordsOf(block);
    Plus(After(s, x, 4 * |x| - 1), s)
  }

  function Fold(s: State, bytes: seq<byte>): State
    requires |bytes| % 64 == 0
    decreases |bytes|
  {
    if |bytes| == 0 then s else Fold(Compress(s, bytes[..64]), bytes[64..])
  }

  // ---- Sections 3.1, 3.2 and 3.5: padding, length and output -------------------------------

  /** The number of zero bytes after the single 0x80 byte: the least that makes the length
      congruent to 56 modulo 64. */
  function ZeroCount(n: nat): (k: nat)
    ensures k < 64 && (n + 1 + k) % 64 == 56
  {
    (119 - n % 64) % 64
  }

  function Zeros(k: nat): (z: seq<byte>)
    ensures |z| == k
  {
    seq(k, i => 0)
  }

  /** The low 64 bits of v, low-order byte first. */
  function LittleEndian64(v: nat): (bytes: seq<byte>)
    ensures |bytes| == 8
  {
    [ByteOf(v, 0x1), ByteOf(v, 0x100), ByteOf(v, 0x1_0000), ByteOf(v, 0x100_0000),
     ByteOf(v, 0x1_0000_0000), ByteOf(v, 0x100_0000_0000), ByteOf(v, 0x1_0000_0000_0000),
     ByteOf(v, 0x100_0000_0000_0000)]
  }

  function ByteOf(v: nat, unit: nat): byte
    requires unit > 0
  {
    (v / unit % 0x100) as byte
  }

  lemma EndsBlock(n: nat)
    requires n % 64 == 56
    ensures (n + 8) % 64 == 0
  {
  }

  function Padding(n: nat): (p: seq<byte>)
    ensures (n + |p|) % 64 == 0
  {
    hide LittleEndian64, Zeros, ZeroCount;
    EndsBlock(n + 1 + ZeroCount(n));
    [0x80] + Zeros(ZeroCount(n)) + LittleEndian64(8 * n)
  }

  function BytesOfWord(w: word): (bytes: seq<byte>)
    ensures |bytes| == 4
  {
    [(w & 0xff) as byte, ((w >> 8) & 0xff) as byte, ((w >> 16) & 0xff) as byte, ((w >> 24) & 0xff) as byte]
  }

  function Output(s: State): seq<byte> {
    BytesOfWord(s.a) + BytesOfWord(s.b) + BytesOfWord(s.c) + BytesOfWord(s.d)
  }

  function Digest(message: seq<byte>): seq<byte> {
    Output(Fold(InitialState, message + Padding(|message|)))
  }

  /** Folding a concatenation of whole blocks is folding the parts in order. */
  lemma {:induction false} FoldConcat(s: State, x: seq<byte>, y: seq<byte>)
    requires |x| % 64 == 0 && |y| % 64 == 0
    ensures (|x| + |y|) % 64 == 0
    ensures Fold(s, x + y) == Fold(Fold(s, x), y)
    decreases |x|
  {
    if |x| == 0 {
      assert x + y == y;
    } else {
      assert (x + y)[..64] == x[..64];
      assert (x + y)[64..] == x[64..] + y;
      FoldConcat(Compress(s, x[..64]), x[64..], y);
    }
  }
}
