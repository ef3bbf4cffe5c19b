/** lib/md5.c, md5_process_block: the macros FF, FG, FH, FI and OP and the 64 unrolled operations on one
    block, proved equal to the compression function of RFC 1321. */
module Md5Rounds {
  import opened Rfc1321

  function FF(b: word, c: word, d: word): word { d ^ (b & (c ^ d)) }

  function FG(b: word, c: word, d: word): word { FF(d, b, c) }

  function FH(b: word, c: word, d: word): word { b ^ c ^ d }

  function FI(b: word, c: word, d: word): word { c ^ (b | !d) }

  /** The first choice function, written with one operator fewer, is the one of the standard. */
  lemma FFIsF(b: word, c: word, d: word)
    ensures FF(b, c, d) == F(b, c, d)
  {
    assert d ^ (b & (c ^ d)) == (b & c) | (!b & d);
  }

  /** FG is FF with its arguments moved round. */
  lemma FGIsG(b: word, c: word, d: word)
    ensures FG(b, c, d) == G(b, c, d)
  {
    assert c ^ (d & (b ^ c)) == (b & d) | (c & !d);
  }

  /** The macro OP: what it leaves in its register a, f being the value of the round function. The
      macro CYCLIC is Rotate. */
  function Op(f: word, a: word, b: word, x: word, s: word, t: word): word
    requires 0 < s < 32
  {
    Rotate(a + (f + x + t), s) + b
  }

  /** OP adds in another order than the standard. */
  lemma OpIsCombine(f: word, a: word, b: word, x: word, s: word, t: word)
    requires 0 < s < 32
    ensures Op(f, a, b, x, s, t) == Combine(f, a, b, x, s, t)
  {
  }

  // ---- Steps of the standard, kept abstract in the round proofs ----------------------------

  /** Step i of the standard on four registers. */
  function Step(p: State, x: seq<word>, i: nat): State
    requires |x| == 16 && i < 64
  {
    var op := OperationAt(i);
    State(p.d, Combine(Mix(i, p.b, p.c, p.d), p.a, p.b, x[op.k], op.s, op.t), p.b, p.c)
  }

  /** Always true. Mentioning it makes the definition of step i available through IsRun, so that a proof
      about sixteen operations is not also a proof about sixteen 32-bit additions. */
  ghost predicate AtStep(i: nat) { true }

  /** run holds the registers before step 0, before step 1, ..., before step 63 and after it. */
  ghost predicate IsRun(run: seq<State>, x: seq<word>) {
    && |run| == 65 && |x| == 16
    && forall i: nat {:trigger AtStep(i)} :: AtStep(i) && i < 64 ==> run[i + 1] == Step(run[i], x, i)
  }

  // ---- The macro OP ------------------------------------------------------------------------

  /** Loads a 32-bit word as a little-endian processor does; SWAP is then the identity. */
  function LoadWord(data: seq<byte>, at: nat): word
    requires at + 4 <= |data|
  {
    WordOf(data[at], data[at + 1], data[at + 2], data[at + 3])
  }

  /** The macro OP of round 1: it also stores the next word of the block in correctWords. */
  method OpFF(a: word, b: word, c: word, d: word, block: seq<byte>, correctWords: array<word>, i: nat,
              s: word, t: word, ghost run: seq<State>) returns (r: word)
    requires i < 16 && |block| == 64 && correctWords.Length == 16
    requires Round1(i) == Operation(i, s, t)
    requires IsRun(run, WordsOf(block)) && run[i] == State(a, b, c, d)
    requires forall j | 0 <= j < i :: correctWords[j] == WordsOf(block)[j]
    modifies correctWords
    ensures forall j | 0 <= j <= i :: correctWords[j] == WordsOf(block)[j]
    ensures State(d, r, b, c) == run[i + 1]
  {
    assert AtStep(i);
    correctWords[i] := LoadWord(block, 4 * i);
    FFIsF(b, c, d);
    OpIsCombine(FF(b, c, d), a, b, correctWords[i], s, t);
    r := Op(FF(b, c, d), a, b, correctWords[i], s, t);
  }

  /** The macro OP of rounds 2 to 4, one method for each value of its first argument. */
  method OpFG(a: word, b: word, c: word, d: word, w: word, s: word, t: word,
              ghost x: seq<word>, ghost run: seq<State>, ghost k: nat, ghost i: nat) returns (r: word)
    requires i < 16 && Round2(i) == Operation(k, s, t)
    requires IsRun(run, x) && k < 16 && w == x[k] && run[16 + i] == State(a, b, c, d)
    ensures State(d, r, b, c) == run[16 + i + 1]
  {
    assert AtStep(16 + i);
    FGIsG(b, c, d);
    OpIsCombine(FG(b, c, d), a, b, w, s, t);
    r := Op(FG(b, c, d), a, b, w, s, t);
  }

  method OpFH(a: word, b: word, c: word, d: word, w: word, s: word, t: word,
              ghost x: seq<word>, ghost run: seq<State>, ghost k: nat, ghost i: nat) returns (r: word)
    requires i < 16 && Round3(i) == Operation(k, s, t)
    requires IsRun(run, x) && k < 16 && w == x[k] && run[32 + i] == State(a, b, c, d)
    ensures State(d, r, b, c) == run[32 + i + 1]
  {
    assert AtStep(32 + i);
    OpIsCombine(FH(b, c, d), a, b, w, s, t);
    r := Op(FH(b, c, d), a, b, w, s, t);
  }

  method OpFI(a: word, b: word, c: word, d: word, w: word, s: word, t: word,
              ghost x: seq<word>, ghost run: seq<State>, ghost k: nat, ghost i: nat) returns (r: word)
    requires i < 16 && Round4(i) == Operation(k, s, t)
    requires IsRun(run, x) && k < 16 && w == x[k] && run[48 + i] == State(a, b, c, d)
    ensures State(d, r, b, c) == run[48 + i + 1]
  {
    assert AtStep(48 + i);
    OpIsCombine(FI(b, c, d), a, b, w, s, t);
    r := Op(FI(b, c, d), a, b, w, s, t);
  }

  // ---- The four rounds ---------------------------------------------------------------------

  /** Four operations of round 1, from word i on. */
  method FourOps(block: seq<byte>, correctWords: array<word>, p: State, i: nat,
                 t0: word, t1: word, t2: word, t3: word, ghost run: seq<State>) returns (q: State)
    requires i <= 12 && |block| == 64 && correctWords.Length == 16
    requires Round1(i) == Operation(i, 7, t0) && Round1(i + 1) == Operation(i + 1, 12, t1)
    requires Round1(i + 2) == Operation(i + 2, 17, t2) && Round1(i + 3) == Operation(i + 3, 22, t3)
    requires IsRun(run, WordsOf(block)) && p == run[i]
    requires forall j | 0 <= j < i :: correctWords[j] == WordsOf(block)[j]
    modifies correctWords
    ensures forall j | 0 <= j < i + 4 :: correctWords[j] == WordsOf(block)[j]
    ensures q == run[i + 4]
  {
    hide Round1, WordsOf;
    var A, B, C, D := p.a, p.b, p.c, p.d;
    A := OpFF(A, B, C, D, block, correctWords, i, 7, t0, run);
    D := OpFF(D, A, B, C, block, correctWords, i + 1, 12, t1, run);
    C := OpFF(C, D, A, B, block, correctWords, i + 2, 17, t2, run);
    B := OpFF(B, C, D, A, block, correctWords, i + 3, 22, t3, run);
    q := State(A, B, C, D);
  }

  method PerformRound1(block: seq<byte>, correctWords: array<word>, p: State, ghost run: seq<State>)
    returns (q: State)
    requires |block| == 64 && correctWords.Length == 16
    requires IsRun(run, WordsOf(block)) && p == run[0]
    modifies correctWords
    ensures correctWords[..] == WordsOf(block)
    ensures q == run[16]
  {
    q := FourOps(block, correctWords, p, 0, 0xd76aa478, 0xe8c7b756, 0x242070db, 0xc1bdceee, run);
    q := FourOps(block, correctWords, q, 4, 0xf57c0faf, 0x4787c62a, 0xa8304613, 0xfd469501, run);
    q := FourOps(block, correctWords, q, 8, 0x698098d8, 0x8b44f7af, 0xffff5bb1, 0x895cd7be, run);
    q := FourOps(block, correctWords, q, 12, 0x6b901122, 0xfd987193, 0xa679438e, 0x49b40821, run);
  }

  method PerformRound2(correctWords: array<word>, p: State, ghost run: seq<State>) returns (q: State)
    requires correctWords.Length == 16 && IsRun(run, correctWords[..]) && p == run[16]
    ensures q == run[32]
  {
    ghost var x := correctWords[..];
    var A, B, C, D := p.a, p.b, p.c, p.d;
    A := OpFG(A, B, C, D, correctWords[1], 5, 0xf61e2562, x, run, 1, 0);
    D := OpFG(D, A, B, C, correctWords[6], 9, 0xc040b340, x, run, 6, 1);
    C := OpFG(C, D, A, B, correctWords[11], 14, 0x265e5a51, x, run, 11, 2);
    B := OpFG(B, C, D, A, correctWords[0], 20, 0xe9b6c7aa, x, run, 0, 3);
    A := OpFG(A, B, C, D, correctWords[5], 5, 0xd62f105d, x, run, 5, 4);
    D := OpFG(D, A, B, C, correctWords[10], 9, 0x02441453, x, run, 10, 5);
    C := OpFG(C, D, A, B, correctWords[15], 14, 0xd8a1e681, x, run, 15, 6);
    B := OpFG(B, C, D, A, correctWords[4], 20, 0xe7d3fbc8, x, run, 4, 7);
    A := OpFG(A, B, C, D, correctWords[9], 5, 0x21e1cde6, x, run, 9, 8);
    D := OpFG(D, A, B, C, correctWords[14], 9, 0xc33707d6, x, run, 14, 9);
    C := OpFG(C, D, A, B, correctWords[3], 14, 0xf4d50d87, x, run, 3, 10);
    B := OpFG(B, C, D, A, correctWords[8], 20, 0x455a14ed, x, run, 8, 11);
    A := OpFG(A, B, C, D, correctWords[13], 5, 0xa9e3e905, x, run, 13, 12);
    D := OpFG(D, A, B, C, correctWords[2], 9, 0xfcefa3f8, x, run, 2, 13);
    C := OpFG(C, D, A, B, correctWords[7], 14, 0x676f02d9, x, run, 7, 14);
    B := OpFG(B, C, D, A, correctWords[12], 20, 0x8d2a4c8a, x, run, 12, 15);
    q := State(A, B, C, D);
  }

  method PerformRound3(correctWords: array<word>, p: State, ghost run: seq<State>) returns (q: State)
    requires correctWords.Length == 16 && IsRun(run, correctWords[..]) && p == run[32]
    ensures q == run[48]
  {
    ghost var x := correctWords[..];
    var A, B, C, D := p.a, p.b, p.c, p.d;
    A := OpFH(A, B, C, D, correctWords[5], 4, 0xfffa3942, x, run, 5, 0);
    D := OpFH(D, A, B, C, correctWords[8], 11, 0x8771f681, x, run, 8, 1);
    C := OpFH(C, D, A, B, correctWords[11], 16, 0x6d9d6122, x, run, 11, 2);
    B := OpFH(B, C, D, A, correctWords[14], 23, 0xfde5380c, x, run, 14, 3);
    A := OpFH(A, B, C, D, correctWords[1], 4, 0xa4beea44, x, run, 1, 4);
    D := OpFH(D, A, B, C, correctWords[4], 11, 0x4bdecfa9, x, run, 4, 5);
    C := OpFH(C, D, A, B, correctWords[7], 16, 0xf6bb4b60, x, run, 7, 6);
    B := OpFH(B, C, D, A, correctWords[10], 23, 0xbebfbc70, x, run, 10, 7);
    A := OpFH(A, B, C, D, correctWords[13], 4, 0x289b7ec6, x, run, 13, 8);
    D := OpFH(D, A, B, C, correctWords[0], 11, 0xeaa127fa, x, run, 0, 9);
    C := OpFH(C, D, A, B, correctWords[3], 16, 0xd4ef3085, x, run, 3, 10);
    B := OpFH(B, C, D, A, correctWords[6], 23, 0x04881d05, x, run, 6, 11);
    A := OpFH(A, B, C, D, correctWords[9], 4, 0xd9d4d039, x, run, 9, 12);
    D := OpFH(D, A, B, C, correctWords[12], 11, 0xe6db99e5, x, run, 12, 13);
    C := OpFH(C, D, A, B, correctWords[15], 16, 0x1fa27cf8, x, run, 15, 14);
    B := OpFH(B, C, D, A, correctWords[2], 23, 0xc4ac5665, x, run, 2, 15);
    q := State(A, B, C, D);
  }

  /** The first eight operations of round 4. */
  method BeginRound4(correctWords: array<word>, p: State, ghost run: seq<State>) returns (q: State)
    requires correctWords.Length == 16 && IsRun(run, correctWords[..]) && p == run[48]
    ensures q == run[56]
  {
    ghost var x := correctWords[..];
    var A, B, C, D := p.a, p.b, p.c, p.d;
    A := OpFI(A, B, C, D, correctWords[0], 6, 0xf4292244, x, run, 0, 0);
    D := OpFI(D, A, B, C, correctWords[7], 10, 0x432aff97, x, run, 7, 1);
    C := OpFI(C, D, A, B, correctWords[14], 15, 0xab9423a7, x, run, 14, 2);
    B := OpFI(B, C, D, A, correctWords[5], 21, 0xfc93a039, x, run, 5, 3);
    A := OpFI(A, B, C, D, correctWords[12], 6, 0x655b59c3, x, run, 12, 4);
    D := OpFI(D, A, B, C, correctWords[3], 10, 0x8f0ccc92, x, run, 3, 5);
    C := OpFI(C, D, A, B, correctWords[10], 15, 0xffeff47d, x, run, 10, 6);
    B := OpFI(B, C, D, A, correctWords[1], 21, 0x85845dd1, x, run, 1, 7);
    q := State(A, B, C, D);
  }

  method PerformRound4(correctWords: array<word>, p: State, ghost run: seq<State>) returns (q: State)
    requires correctWords.Length == 16 && IsRun(run, correctWords[..]) && p == run[48]
    ensures q == run[64]
  {
    ghost var x := correctWords[..];
    q := BeginRound4(correctWords, p, run);
    var A, B, C, D := q.a, q.b, q.c, q.d;
    A := OpFI(A, B, C, D, correctWords[8], 6, 0x6fa87e4f, x, run, 8, 8);
    D := OpFI(D, A, B, C, correctWords[15], 10, 0xfe2ce6e0, x, run, 15, 9);
    C := OpFI(C, D, A, B, correctWords[6], 15, 0xa3014314, x, run, 6, 10);
    B := OpFI(B, C, D, A, correctWords[13], 21, 0x4e0811a1, x, run, 13, 11);
    A := OpFI(A, B, C, D, correctWords[4], 6, 0xf7537e82, x, run, 4, 12);
    D := OpFI(D, A, B, C, correctWords[11], 10, 0xbd3af235, x, run, 11, 13);
    C := OpFI(C, D, A, B, correctWords[2], 15, 0x2ad7d2bb, x, run, 2, 14);
    B := OpFI(B, C, D, A, correctWords[9], 21, 0xeb86d391, x, run, 9, 15);
    q := State(A, B, C, D);
  }

  // ---- One block ---------------------------------------------------------------------------

  lemma StandardRun(s: State, x: seq<word>) returns (run: seq<State>)
    requires |x| == 16
    ensures IsRun(run, x) && run[0] == s && run[64] == After(s, x, 4 * |x| - 1)
  {
    run := seq(65, i requires 0 <= i < 65 => if i == 0 then s else After(s, x, i - 1));
    forall i: nat | i < 64
      ensures run[i + 1] == Step(run[i], x, i)
    {
      assert run[i + 1] == After(s, x, i);
      assert run[i] == if i == 0 then s else After(s, x, i - 1);
    }
  }

  /** The body of the loop of md5_process_block: one block changes the registers as the standard says. */
  method CompressBlock(block: seq<byte>, s: State) returns (r: State)
    requires |block| == 64
    ensures r == Compress(s, block)
  {
    var correctWords := new word[16];
    ghost var x := WordsOf(block);
    ghost var run := StandardRun(s, x);
    var q := PerformRound1(block, correctWords, s, run);
    q := PerformRound2(correctWords, q, run);
    q := PerformRound3(correctWords, q, run);
    q := PerformRound4(correctWords, q, run);
    r := Plus(q, s);
  }
}
