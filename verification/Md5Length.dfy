/** lib/md5.c: the double-word byte counter of md5_process_block and md5_finish_ctx, and the length field
    that md5_finish_ctx makes of it. */
module Md5Length {
  import opened Machine
  import opened Rfc1321

  const TWO_TO_29 := 0x2000_0000
  const TWO_TO_64 := 0x1_0000_0000_0000_0000

  // ---- The two-word byte counter ------------------------------------------------------------

  /** The two 32-bit words of the field total. */
  datatype Total = Total(low: nat, high: nat)
  {
    predicate Valid() { low < TWO_TO_32 && high < TWO_TO_32 }

    function Value(): nat { low + TWO_TO_32 * high }
  }

  /** The double-word increment: total[0] is truncated to 32 bits and then compared with all of len. */
  function Increment(t: Total, len: nat): (r: Total)
    requires t.Valid()
    ensures r.Valid()
  {
    var low := (t.low + len) % TWO_TO_32;
    Total(low, (t.high + if low < len then 1 else 0) % TWO_TO_32)
  }

  /** The carry test counts bytes modulo 2^64 for every length that fits in 32 bits; for a longer one it
      does so exactly when one carry happens to be the right number modulo 2^32. */
  lemma IncrementCountsBytes(t: Total, len: nat)
    requires t.Valid()
    ensures Increment(t, len).Value() == (t.Value() + len) % TWO_TO_64
       <==> len < TWO_TO_32 || (t.low + len) / TWO_TO_32 % TWO_TO_32 == 1
  {
    var carries := (t.low + len) / TWO_TO_32;
    var low := (t.low + len) % TWO_TO_32;
    assert t.Value() + len == low + TWO_TO_32 * (t.high + carries);
    SplitWords(low, t.high + carries);
    assert len < TWO_TO_32 ==> carries <= 1 && (carries == 1 <==> low < len);
    var one := if low < len then 1 else 0;
    assert len >= TWO_TO_32 ==> one == 1;
    SameResidue(t.high, one, carries);
  }

  lemma IncrementAddsLength(t: Total, n: nat, len: nat)
    requires t.Valid() && t.Value() == n % TWO_TO_64 && len < TWO_TO_32
    ensures Increment(t, len).Value() == (n + len) % TWO_TO_64
  {
    IncrementCountsBytes(t, len);
    AddToResidue(t.Value(), n, len);
  }

  lemma AddToResidue(x: nat, n: nat, len: nat)
    requires x == n % TWO_TO_64
    ensures (x + len) % TWO_TO_64 == (n + len) % TWO_TO_64
  {
    var q := n / TWO_TO_64;
    assert n + len == (x + len) + TWO_TO_64 * q;
  }

  lemma SplitWords(low: nat, high: nat)
    requires low < TWO_TO_32
    ensures (low + TWO_TO_32 * high) % TWO_TO_64 == low + TWO_TO_32 * (high % TWO_TO_32)
  {
  }

  lemma SameResidue(h: nat, x: nat, y: nat)
    ensures (h + x) % TWO_TO_32 == (h + y) % TWO_TO_32 <==> x % TWO_TO_32 == y % TWO_TO_32
  {
  }

  /** A single buffer of 2^33 bytes is counted as 2^32. */
  lemma IncrementMiscountsHugeBuffers()
    ensures Increment(Total(0, 0), 2 * TWO_TO_32).Value() == TWO_TO_32
  {
  }

  // ---- The length field ---------------------------------------------------------------------

  function BytesOf32(v: nat): (bytes: seq<byte>)
    ensures |bytes| == 4
  {
    [ByteOf(v, 0x1), ByteOf(v, 0x100), ByteOf(v, 0x1_0000), ByteOf(v, 0x100_0000)]
  }

  function BitsLow(t: Total): nat { t.low * 8 % TWO_TO_32 }

  function BitsHigh(t: Total): nat { t.high * 8 % TWO_TO_32 + t.low / TWO_TO_29 }

  /** The eight bytes that md5_finish_ctx writes as two words. */
  function LengthBytes(t: Total): (bytes: seq<byte>)
    ensures |bytes| == 8
  {
    BytesOf32(BitsLow(t)) + BytesOf32(BitsHigh(t))
  }

  /** A word is its three highest bits and the rest. */
  lemma SplitBits(x: bv32)
    ensures x as int == 0x2000_0000 * ((x >> 29) as int) + ((x & 0x1fff_ffff) as int)
  {
  }

  lemma IsSmall(x: bv32)
    ensures 0 <= x as int < 0x1_0000_0000
  {
  }

  lemma ShiftThree(x: bv32)
    ensures (x << 3) as int == 8 * ((x & 0x1fff_ffff) as int)
  {
  }

  lemma QuotientAndRest(n: int, high: int, rest: int)
    requires n == TWO_TO_29 * high + rest && 0 <= rest < TWO_TO_29
    ensures high == n / TWO_TO_29 && 8 * rest == n * 8 % TWO_TO_32
  {
  }

  lemma Shifts(x: bv32)
    ensures (x << 3) as int == x as int * 8 % TWO_TO_32 && (x >> 29) as int == x as int / TWO_TO_29
  {
    SplitBits(x);
    IsSmall(x << 3);
    ShiftThree(x);
    QuotientAndRest(x as int, (x >> 29) as int, (x & 0x1fff_ffff) as int);
  }

  lemma OrIsSum(high: bv32, low: bv32)
    ensures ((high << 3) | (low >> 29)) as int == (high << 3) as int + (low >> 29) as int
  {
  }

  /** The shifts, and the bitwise or that joins two of them, compute these two words. */
  lemma ShiftedWords(low: bv32, high: bv32)
    ensures var t := Total(low as int, high as int);
            (low << 3) as int == BitsLow(t) && ((high << 3) | (low >> 29)) as int == BitsHigh(t)
  {
    Shifts(low);
    Shifts(high);
    OrIsSum(high, low);
  }

  /** The two words written are eight times the byte count, low word first, modulo 2^64. */
  lemma LengthField(t: Total, n: nat)
    requires t.Valid() && t.Value() == n % TWO_TO_64
    ensures LengthBytes(t) == LittleEndian64(8 * n)
  {
    BitCount(t, n);
    var low, high, v := BitsLow(t), BitsHigh(t), 8 * n;
    LowDigits(low, high + TWO_TO_32 * (v / TWO_TO_64), v);
    HighDigits(low, high, v);
    SameByte(low, 0x1, v, 0x1);
    SameByte(low, 0x100, v, 0x100);
    SameByte(low, 0x1_0000, v, 0x1_0000);
    SameByte(low, 0x100_0000, v, 0x100_0000);
    SameByte(high, 0x1, v, 0x1_0000_0000);
    SameByte(high, 0x100, v, 0x100_0000_0000);
    SameByte(high, 0x1_0000, v, 0x1_0000_0000_0000);
    SameByte(high, 0x100_0000, v, 0x100_0000_0000_0000);
  }

  lemma SameByte(v: nat, u: nat, w: nat, x: nat)
    requires u > 0 && x > 0 && v / u % 0x100 == w / x % 0x100
    ensures ByteOf(v, u) == ByteOf(w, x)
  {
  }

  lemma BitCount(t: Total, n: nat)
    requires t.Valid() && t.Value() == n % TWO_TO_64
    ensures BitsLow(t) < TWO_TO_32 && BitsHigh(t) < TWO_TO_32
    ensures BitsLow(t) + TWO_TO_32 * BitsHigh(t) == 8 * n % TWO_TO_64
  {
    TimesEight(t.low);
    TimesEight(t.high);
    var k := 8 * (n / TWO_TO_64) + t.high / TWO_TO_29;
    EightTimes(t, n, k);
    Residue(8 * n, BitsLow(t), BitsHigh(t), k);
  }

  lemma Residue(v: nat, low: nat, high: nat, k: nat)
    requires low < TWO_TO_32 && high < TWO_TO_32 && v == low + TWO_TO_32 * (high + TWO_TO_32 * k)
    ensures v % TWO_TO_64 == low + TWO_TO_32 * high
  {
  }

  /** A 32-bit word shifted left by three: the bits that stay and the three that drop out. */
  lemma TimesEight(x: nat)
    requires x < TWO_TO_32
    ensures x * 8 % TWO_TO_32 == 8 * x - TWO_TO_32 * (x / TWO_TO_29)
    ensures x * 8 % TWO_TO_32 <= TWO_TO_32 - 8 && x / TWO_TO_29 < 8
  {
  }

  lemma EightTimes(t: Total, n: nat, k: nat)
    requires t.Value() == n % TWO_TO_64 && k == 8 * (n / TWO_TO_64) + t.high / TWO_TO_29
    requires BitsLow(t) == 8 * t.low - TWO_TO_32 * (t.low / TWO_TO_29)
    requires BitsHigh(t) == 8 * t.high - TWO_TO_32 * (t.high / TWO_TO_29) + t.low / TWO_TO_29
    ensures 8 * n == BitsLow(t) + TWO_TO_32 * (BitsHigh(t) + TWO_TO_32 * k)
  {
    assert n == t.Value() + TWO_TO_64 * (n / TWO_TO_64);
  }

  lemma LowDigits(low: nat, k: nat, v: nat)
    requires v == low + TWO_TO_32 * k
    ensures low % 0x100 == v % 0x100
    ensures low / 0x100 % 0x100 == v / 0x100 % 0x100
    ensures low / 0x1_0000 % 0x100 == v / 0x1_0000 % 0x100
    ensures low / 0x100_0000 % 0x100 == v / 0x100_0000 % 0x100
  {
    Digit0(low, k, v);
    Digit1(low, k, v);
    Digit2(low, k, v);
    Digit3(low, k, v);
  }

  lemma Digit0(low: nat, k: nat, v: nat)
    requires v == low + TWO_TO_32 * k
    ensures low % 0x100 == v % 0x100
  {
    SameRemainder(low, 0x100_0000 * k);
  }

  lemma SameRemainder(x: nat, m: nat)
    ensures (x + 0x100 * m) % 0x100 == x % 0x100
  {
  }

  lemma Digit1(low: nat, k: nat, v: nat)
    requires v == low + TWO_TO_32 * k
    ensures low / 0x100 % 0x100 == v / 0x100 % 0x100
  {
    Shift1(low, 0x100_0000 * k);
    SameRemainder(low / 0x100, 0x1_0000 * k);
  }

  lemma Shift1(x: nat, m: nat)
    ensures (x + 0x100 * m) / 0x100 == x / 0x100 + m
  {
  }

  lemma Digit2(low: nat, k: nat, v: nat)
    requires v == low + TWO_TO_32 * k
    ensures low / 0x1_0000 % 0x100 == v / 0x1_0000 % 0x100
  {
    Shift2(low, 0x1_0000 * k);
    SameRemainder(low / 0x1_0000, 0x100 * k);
  }

  lemma Shift2(x: nat, m: nat)
    ensures (x + 0x1_0000 * m) / 0x1_0000 == x / 0x1_0000 + m
  {
  }

  lemma Digit3(low: nat, k: nat, v: nat)
    requires v == low + TWO_TO_32 * k
    ensures low / 0x100_0000 % 0x100 == v / 0x100_0000 % 0x100
  {
    Shift3(low, 0x100 * k);
    SameRemainder(low / 0x100_0000, 0x1 * k);
  }

  lemma Shift3(x: nat, m: nat)
    ensures (x + 0x100_0000 * m) / 0x100_0000 == x / 0x100_0000 + m
  {
  }

  lemma HighDigits(low: nat, high: nat, v: nat)
    requires low < TWO_TO_32 && high < TWO_TO_32 && low + TWO_TO_32 * high == v % TWO_TO_64
    ensures high % 0x100 == v / 0x1_0000_0000 % 0x100
    ensures high / 0x100 % 0x100 == v / 0x100_0000_0000 % 0x100
    ensures high / 0x1_0000 % 0x100 == v / 0x1_0000_0000_0000 % 0x100
    ensures high / 0x100_0000 % 0x100 == v / 0x100_0000_0000_0000 % 0x100
  {
    var w := high + TWO_TO_32 * (v / TWO_TO_64);
    assert v == low + TWO_TO_32 * w;
    LowDigits(high, v / TWO_TO_64, w);
    Drop5(v, w, low);
    Drop6(v, w, low);
    Drop7(v, w, low);
  }

  lemma Drop5(v: nat, w: nat, low: nat)
    requires v == low + TWO_TO_32 * w && low < TWO_TO_32
    ensures v / 0x100_0000_0000 == w / 0x100
  {
    assert w == 0x100 * (w / 0x100) + w % 0x100;
  }

  lemma Drop6(v: nat, w: nat, low: nat)
    requires v == low + TWO_TO_32 * w && low < TWO_TO_32
    ensures v / 0x1_0000_0000_0000 == w / 0x1_0000
  {
    assert w == 0x1_0000 * (w / 0x1_0000) + w % 0x1_0000;
  }

  lemma Drop7(v: nat, w: nat, low: nat)
    requires v == low + TWO_TO_32 * w && low < TWO_TO_32
    ensures v / 0x100_0000_0000_0000 == w / 0x100_0000
  {
    assert w == 0x100_0000 * (w / 0x100_0000) + w % 0x100_0000;
  }
}
