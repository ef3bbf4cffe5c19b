/** sanei/sanei_constrain_value.c, on values: what a range, a word list and a string list make of a value, and which
    values they accept. Words are 32 bits wide. */
module ConstrainSpec {

  import opened Machine

  // ---- Ranges -------------------------------------------------------------------------------

  datatype Range = Range(min: int, max: int, quant: int)
  {
    predicate Valid() {
      IsWord(min) && IsWord(max) && IsWord(quant) && min <= max && quant >= 0
    }
  }

  function Clamp(r: Range, w: int): int {
    var low := if w < r.min then r.min else w;
    if low > r.max then r.max else low
  }

  /** The quantisation as it is computed. */
  function Quantised(r: Range, w: int): int
    requires r.quant > 0
  {
    var v := Signed(Unsigned(w - r.min + r.quant / 2) / r.quant);
    Signed(v * r.quant + r.min)
  }

  function Constrained(r: Range, w: int): int
    requires r.quant >= 0
  {
    if r.quant == 0 then Clamp(r, w) else Quantised(r, Clamp(r, w))
  }

  /** sanei_check_value, for one word. */
  predicate Accepts(r: Range, w: int)
    requires r.quant >= 0
  {
    r.min <= w <= r.max && (r.quant == 0 || Quantised(r, w) == w)
  }

  /** A value of the grid that starts at min. */
  ghost predicate OnGrid(r: Range, v: int) {
    exists n: nat :: v == r.min + n * r.quant
  }

  function Distance(a: int, b: int): nat {
    if a < b then b - a else a - b
  }

  lemma DivisionBounds(x: nat, q: nat)
    requires q > 0
    ensures x / q * q <= x < x / q * q + q
  {
  }

  lemma SignedPeriodic(x: int, k: int)
    ensures Signed(x + k * TWO_TO_32) == Signed(x)
  {
  }

  /** A factor that has wrapped around does not matter. */
  lemma WrapsBack(n: nat, q: nat, min: int)
    requires n < TWO_TO_32
    ensures Signed(Signed(n) * q + min) == Signed(n * q + min)
  {
    var k := if n < 0x8000_0000 then 0 else -1;
    assert Signed(n) == n + k * TWO_TO_32;
    assert (n + k * TWO_TO_32) * q == n * q + (k * q) * TWO_TO_32;
    SignedPeriodic(n * q + min, k * q);
  }

  lemma QuotientIsSmaller(x: nat, q: nat)
    requires q > 0
    ensures x / q <= x
  {
    DivisionBounds(x, q);
    Times(x / q, q);
  }

  lemma Times(n: nat, q: nat)
    requires q > 0
    ensures n * q >= n
  {
  }

  /** The greatest multiple of q up to x. */
  function Floor(x: nat, q: nat): (f: nat)
    requires q > 0
  {
    Times0(x / q, q);
    x / q * q
  }

  lemma FloorBounds(x: nat, q: nat)
    requires q > 0
    ensures Floor(x, q) <= x < Floor(x, q) + q
  {
    DivisionBounds(x, q);
  }

  /** The wrap-around between the two products cancels out. */
  lemma QuantisedFrom(r: Range, w: int, u: nat)
    requires r.quant > 0 && u == Unsigned(w - r.min + r.quant / 2)
    ensures Quantised(r, w) == Signed(Floor(u, r.quant) + r.min)
  {
    QuotientIsSmaller(u, r.quant);
    WrapsBack(u / r.quant, r.quant, r.min);
    hide Signed, Unsigned;
  }

  /** The value that quantisation is meant to compute. */
  function Rounded(r: Range, w: int): int
    requires r.quant > 0 && r.min <= w
  {
    r.min + Floor(w - r.min + r.quant / 2, r.quant)
  }

  /** The sum that is divided does not leave 32 bits. */
  predicate SumFits(r: Range, w: int) {
    w - r.min + r.quant / 2 < TWO_TO_32
  }

  /** Neither does the result. */
  predicate NoOverflow(r: Range, w: int)
    requires r.quant > 0 && r.min <= w
  {
    SumFits(r, w) && Rounded(r, w) < 0x8000_0000
  }

  lemma UnsignedWide(x: nat)
    requires TWO_TO_32 <= x < 2 * TWO_TO_32
    ensures Unsigned(x) == x - TWO_TO_32
  {
  }

  lemma FloorOfLess(x: nat, q: nat)
    requires x < q
    ensures Floor(x, q) == 0
  {
  }

  lemma SignedTooLarge(x: int)
    requires 0x8000_0000 <= x < 0x8000_0000 + TWO_TO_32
    ensures Signed(x) == x - TWO_TO_32
  {
  }

  /** What quantisation computes in all cases: the rounded value; min, if the sum overflows; and a value below min, if
      only the result does. */
  lemma QuantisedIs(r: Range, w: int)
    requires r.Valid() && r.quant > 0 && r.min <= w <= r.max
    ensures Quantised(r, w) == if !SumFits(r, w) then r.min
                               else if Rounded(r, w) < 0x8000_0000 then Rounded(r, w)
                               else Rounded(r, w) - TWO_TO_32
    ensures SumFits(r, w) ==> r.min <= Rounded(r, w) < r.min + TWO_TO_32
  {
    var x := w - r.min + r.quant / 2;
    hide Signed, Quantised, Floor;
    SignedWord(r.min);
    if x < TWO_TO_32 {
      UnsignedSmall(x);
      hide Unsigned;
      QuantisedFrom(r, w, x);
      FloorBounds(x, r.quant);
      SignedWord(Rounded(r, w));
      if Rounded(r, w) >= 0x8000_0000 {
        SignedTooLarge(Rounded(r, w));
      }
    } else {
      UnsignedWide(x);
      hide Unsigned;
      QuantisedFrom(r, w, x - TWO_TO_32);
      FloorOfLess(x - TWO_TO_32, r.quant);
    }
  }

  /** Quantisation computes the rounded value exactly if neither the sum nor the result overflows. */
  lemma QuantisedExactly(r: Range, w: int)
    requires r.Valid() && r.quant > 0 && r.min <= w <= r.max
    ensures Quantised(r, w) == Rounded(r, w) <==> NoOverflow(r, w)
  {
    QuantisedIs(r, w);
    FloorBounds(w - r.min + r.quant / 2, r.quant);
    hide Quantised, Floor;
  }

  /** The result may overflow: the largest word is rounded up to the smallest one. */
  lemma RoundingOverflows()
    ensures var r := Range(0, 0x7fff_ffff, 2); r.Valid() && Constrained(r, 0x7fff_ffff) == -0x8000_0000
  {
  }

  /** So may the sum, although the rounded value is a word. */
  lemma SumOverflows()
    ensures var r := Range(-0x8000_0000, 0x7fff_ffff, 0x7fff_ffff);
            r.Valid() && Rounded(r, 0x7fff_ffff) == 0x7fff_fffe && Constrained(r, 0x7fff_ffff) == -0x8000_0000
  {
  }

  // ---- The rounded value --------------------------------------------------------------------

  lemma Times0(n: nat, q: nat)
    ensures n * q >= 0
  {
  }

  lemma GridStep(n: nat, m: nat, q: nat)
    requires n < m
    ensures n * q + q <= m * q
  {
    Times0(m - n - 1, q);
    assert m * q == n * q + q + (m - n - 1) * q;
  }

  lemma FloorAtMost(x: nat, y: nat, q: nat)
    requires q > 0
    ensures Floor(x, q) <= y <==> x < Floor(y, q) + q
  {
    DivisionBounds(x, q);
    DivisionBounds(y, q);
    var n, k := x / q, y / q;
    if n < k {
      GridStep(n, k, q);
    } else if k < n {
      GridStep(k, n, q);
    }
  }

  /** Rounding a value of the grid gives the value itself, whatever near value it came from. */
  lemma FloorStays(x: nat, y: nat, q: nat)
    requires q > 0 && Floor(x, q) <= y < Floor(x, q) + q
    ensures Floor(y, q) == Floor(x, q)
  {
    var n, k := x / q, y / q;
    DivisionBounds(y, q);
    if n < k {
      GridStep(n, k, q);
    } else if k < n {
      GridStep(k, n, q);
    }
  }

  /** With no overflow, the value is the nearest of the grid. */
  lemma QuantisedIsNearest(r: Range, w: int, v: int)
    requires r.Valid() && r.quant > 0 && r.min <= w <= r.max && NoOverflow(r, w) && OnGrid(r, v)
    ensures OnGrid(r, Quantised(r, w)) && Distance(Quantised(r, w), w) <= Distance(v, w)
  {
    hide Quantised;
    QuantisedIs(r, w);
    var x := w - r.min + r.quant / 2;
    var n := x / r.quant;
    FloorBounds(x, r.quant);
    var m: nat :| v == r.min + m * r.quant;
    if m < n {
      GridStep(m, n, r.quant);
    } else if n < m {
      GridStep(n, m, r.quant);
    }
  }

  /** Rounding stays below max: the clamped value, rounded up, does not reach the first value of the grid beyond. */
  predicate RoundsInside(r: Range, w: int)
    requires r.quant >= 0 && r.min <= r.max
  {
    r.quant == 0 || Clamp(r, w) - r.min + r.quant / 2 < Floor(r.max - r.min, r.quant) + r.quant
  }

  lemma RoundsInsideExactly(r: Range, w: int)
    requires r.Valid() && r.quant > 0
    ensures Rounded(r, Clamp(r, w)) <= r.max <==> RoundsInside(r, w)
  {
    hide Floor;
    FloorAtMost(Clamp(r, w) - r.min + r.quant / 2, r.max - r.min, r.quant);
  }

  lemma DividesInside(r: Range, w: int)
    requires r.Valid() && r.quant > 0 && (r.max - r.min) % r.quant == 0
    ensures RoundsInside(r, w)
  {
    assert Floor(r.max - r.min, r.quant) == r.max - r.min;
    hide Floor;
  }

  /** The clamped result rounds to the result. */
  lemma RoundedStays(r: Range, c: int)
    requires r.Valid() && r.quant > 0 && r.min <= c <= r.max
    ensures Rounded(r, c) >= r.min && Rounded(r, Clamp(r, Rounded(r, c))) == Rounded(r, c)
  {
    var q, x := r.quant, c - r.min + r.quant / 2;
    hide Floor;
    FloorBounds(x, q);
    FloorStays(x, Clamp(r, Rounded(r, c)) - r.min + q / 2, q);
  }

  /** Constraining again changes nothing, exactly if the sum of the first time overflows, which gives min, or neither
      the result of the first time nor the sum of the second does. */
  lemma ConstrainedStays(r: Range, w: int)
    requires r.Valid()
    ensures Constrained(r, Constrained(r, w)) == Constrained(r, w) <==>
              var c := Clamp(r, w);
              || r.quant == 0 || !SumFits(r, c)
              || (Rounded(r, c) < 0x8000_0000 && SumFits(r, Clamp(r, Rounded(r, c))))
  {
    if r.quant > 0 {
      var c := Clamp(r, w);
      hide Quantised, Floor;
      QuantisedIs(r, c);
      QuantisedIs(r, r.min);
      MinStays(r);
      if NoOverflow(r, c) {
        RoundedStays(r, c);
        QuantisedIs(r, Clamp(r, Rounded(r, c)));
      }
    }
  }

  lemma MinStays(r: Range)
    requires r.Valid() && r.quant > 0
    ensures SumFits(r, r.min) && Rounded(r, r.min) == r.min && Quantised(r, r.min) == r.min
  {
    FloorOfLess(r.quant / 2, r.quant);
    hide Quantised, Floor;
    QuantisedIs(r, r.min);
  }

  /** The condition under which repairing w gives a value that is accepted. */
  predicate Repairs(r: Range, w: int)
    requires r.Valid()
  {
    var c := Clamp(r, w);
    || r.quant == 0 || !SumFits(r, c)
    || (RoundsInside(r, w) && SumFits(r, Rounded(r, c)))
  }

  /** sanei_check_value accepts the result exactly if the sum overflows, or rounding stays below max and the sum of the
      check does not overflow; in particular if quant is 0, or divides the width of the range and no sum overflows. */
  lemma ConstrainedIsAccepted(r: Range, w: int)
    requires r.Valid()
    ensures Accepts(r, Constrained(r, w)) <==> Repairs(r, w)
    ensures r.quant == 0 || ((r.max - r.min) % r.quant == 0 && SumFits(r, r.max)) ==> Accepts(r, Constrained(r, w))
  {
    if r.quant > 0 {
      var c := Clamp(r, w);
      hide Quantised, Floor;
      QuantisedIs(r, c);
      MinStays(r);
      RoundsInsideExactly(r, w);
      RoundedStays(r, c);
      if (r.max - r.min) % r.quant == 0 {
        DividesInside(r, w);
      }
      if Rounded(r, c) <= r.max {
        QuantisedIs(r, Rounded(r, c));
      }
      hide RoundsInside;
    }
  }

  /** It may pass max: in steps of 4 from 0 to 10, the value 10 becomes 12. */
  lemma RoundingPassesMax()
    ensures var r := Range(0, 10, 4); r.Valid() && Constrained(r, 10) == 12 && !Accepts(r, 12)
  {
  }

  /** And repeating may change the result: the largest word becomes the smallest one, and that becomes 0. */
  lemma RepeatingChanges()
    ensures var r := Range(0, 0x7fff_ffff, 2);
            r.Valid() && Constrained(r, 0x7fff_ffff) == -0x8000_0000 && Constrained(r, -0x8000_0000) == 0
  {
  }

  /** What sanei_check_value accepts is left as it is. */
  lemma AcceptedStays(r: Range, w: int)
    requires r.Valid() && Accepts(r, w)
    ensures Constrained(r, w) == w && Clamp(r, w) == w
  {
  }

  // ---- Word lists ---------------------------------------------------------------------------

  /** The first word is the number of the others. */
  predicate IsWordList(list: seq<int>) {
    |list| > 1 && list[0] == |list| - 1 && forall i | 0 <= i < |list| :: IsWord(list[i])
  }

  /** abs (w - x) in 32 bits. */
  function AbsDiff(w: int, x: int): int {
    var d := Signed(w - x);
    if d < 0 then Signed(-d) else d
  }

  lemma AbsIsDistance(w: int, x: int)
    requires Distance(w, x) < 0x8000_0000
    ensures AbsDiff(w, x) == Distance(w, x)
  {
    SignedWord(w - x);
  }

  /** All the differences are representable. */
  predicate DifferencesFit(list: seq<int>, w: int) {
    forall i | 0 < i < |list| :: Distance(w, list[i]) < 0x8000_0000
  }

  // ---- String lists -------------------------------------------------------------------------
  /** value begins entry, but for case. */
  predicate Begins(value: seq<Byte>, entry: seq<Byte>) {
    |value| <= |entry| && forall j | 0 <= j < |value| :: Lower(value[j]) == Lower(entry[j])
  }

  predicate Same(value: seq<Byte>, entry: seq<Byte>) {
    |value| == |entry| && Begins(value, entry)
  }

  function FirstSame(list: seq<seq<Byte>>, value: seq<Byte>): (i: nat)
    ensures i <= |list| && (i < |list| ==> Same(value, list[i])) && forall j | 0 <= j < i :: !Same(value, list[j])
  {
    if list == [] || Same(value, list[0]) then 0 else 1 + FirstSame(list[1..], value)
  }

  /** value begins exactly one entry. */
  ghost predicate Unique(list: seq<seq<Byte>>, value: seq<Byte>, i: int) {
    && 0 <= i < |list| && Begins(value, list[i])
    && forall j | 0 <= j < |list| && Begins(value, list[j]) :: j == i
  }

  datatype Choice = Good(value: seq<Byte>) | Inval

  /** What the documentation promises of a string: an entry that is the same, or the only one that it begins. */
  ghost predicate Chooses(list: seq<seq<Byte>>, value: seq<Byte>, c: Choice) {
    var first := FirstSame(list, value);
    if first < |list| then c == Good(list[first])
    else match c
         case Good(v) => exists i :: Unique(list, value, i) && v == list[i]
         case Inval => forall i :: !Unique(list, value, i)
  }

  /** The choice is an entry of the list, and choosing again leaves it alone. */
  lemma ChoiceStays(list: seq<seq<Byte>>, value: seq<Byte>, v: seq<Byte>, c: Choice)
    requires Chooses(list, value, Good(v)) && Chooses(list, v, c)
    ensures v in list && c == Good(v)
  {
    var first := FirstSame(list, value);
    var second := FirstSame(list, v);
    if first < |list| {
      assert Same(v, list[first]);
      assert second <= first;
      assert Same(value, list[second]);
    } else {
      var i :| Unique(list, value, i) && v == list[i];
      assert Same(v, list[i]);
      assert second <= i;
      assert Begins(value, list[second]);
    }
  }

  /** The first place of a string. */
  function PlaceOf(list: seq<seq<Byte>>, value: seq<Byte>): (i: nat)
    ensures i <= |list| && (i < |list| ==> list[i] == value) && forall j | 0 <= j < i :: list[j] != value
  {
    if list == [] || list[0] == value then 0 else 1 + PlaceOf(list[1..], value)
  }

  /** A string in the list is kept exactly if no entry before it differs from it only in case. */
  lemma EntryStaysExactly(list: seq<seq<Byte>>, value: seq<Byte>, c: Choice)
    requires value in list && Chooses(list, value, c)
    ensures c == Good(value) <==> forall j | 0 <= j < PlaceOf(list, value) :: !Same(value, list[j])
  {
    var place, first := PlaceOf(list, value), FirstSame(list, value);
    assert Same(value, list[place]);
    assert first <= place;
  }

  /** Otherwise it is replaced: "a" by "A", if that comes before it. */
  lemma EntryMayChange()
    ensures Chooses([[65], [97]], [97], Good([65]))
  {
    var upper: seq<Byte>, lower: seq<Byte> := [65], [97];
    assert Same(lower, [upper, lower][0]);
  }
}
