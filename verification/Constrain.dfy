/** sanei/sanei_constrain_value.c: sanei_constrain_value repairs a value in place, and sanei_check_value only looks at
    it. */
module Constrain {
  import opened Machine
  import opened ConstrainSpec

  /** The number of words of an option; one if it has no size. */
  function Count(size: int): nat {
    if size > 0 then size / 4 else 1
  }

  /** Whether repairing w sets SANE_INFO_INEXACT. */
  predicate Inexact(r: Range, w: int)
    requires r.quant >= 0
  {
    Clamp(r, w) != w || Constrained(r, w) != Clamp(r, w)
  }

  /** SANE_CONSTRAINT_RANGE: repairs every word. info is the flag that the caller keeps. */
  method ConstrainRange(a: array<int>, size: int, r: Range, info: bool) returns (inexact: bool)
    requires r.Valid() && Count(size) <= a.Length
    modifies a
    ensures forall i | 0 <= i < Count(size) :: a[i] == Constrained(r, old(a[i]))
    ensures a[Count(size)..] == old(a[Count(size)..])
    ensures inexact == (info || exists i | 0 <= i < Count(size) :: Inexact(r, old(a[i])))
  {
    var k := if size > 0 then size / 4 else 1;
    inexact := info;
    for i := 0 to k
      invariant forall j | 0 <= j < i :: a[j] == Constrained(r, old(a[j]))
      invariant forall j | i <= j < a.Length :: a[j] == old(a[j])
      invariant inexact == (info || exists j | 0 <= j < i :: Inexact(r, old(a[j])))
    {
      ghost var w := a[i];
      if a[i] < r.min {
        a[i] := r.min;
        inexact := true;
      }
      if a[i] > r.max {
        a[i] := r.max;
        inexact := true;
      }
      assert a[i] == Clamp(r, w);
      if r.quant != 0 {
        var v := Signed(Unsigned(a[i] - r.min + r.quant / 2) / r.quant);
        v := Signed(v * r.quant + r.min);
        if v != a[i] {
          a[i] := v;
          inexact := true;
        }
      }
    }
  }

  method CheckRange(a: array<int>, size: int, r: Range) returns (good: bool)
    requires r.Valid() && Count(size) <= a.Length
    ensures good <==> forall i | 0 <= i < Count(size) :: Accepts(r, a[i])
  {
    var count := if size > 0 then size / 4 else 1;
    for i := 0 to count
      invariant forall j | 0 <= j < i :: Accepts(r, a[j])
    {
      if a[i] < r.min || a[i] > r.max {
        return false;
      }
      if r.quant != 0 {
        var v := Signed(Unsigned(a[i] - r.min + r.quant / 2) / r.quant);
        v := Signed(v * r.quant + r.min);
        if v != a[i] {
          return false;
        }
      }
    }
    return true;
  }

  /** Checking an array, repairing it and checking it again. What is accepted to begin with is left as it is, and
      nothing is flagged. The result is accepted exactly if for no word rounding passes max or the sum of the check
      overflows. */
  method RepairAndCheck(a: array<int>, size: int, r: Range) returns (was: bool, inexact: bool, good: bool)
    requires r.Valid() && Count(size) <= a.Length
    modifies a
    ensures was <==> forall i | 0 <= i < Count(size) :: Accepts(r, old(a[i]))
    ensures was ==> a[..] == old(a[..]) && !inexact && good
    ensures good <==> forall i | 0 <= i < Count(size) :: Repairs(r, old(a[i]))
    ensures r.quant == 0 || ((r.max - r.min) % r.quant == 0 && SumFits(r, r.max)) ==> good
  {
    was := CheckRange(a, size, r);
    ghost var before := a[..];
    forall i | 0 <= i < Count(size) && Accepts(r, a[i]) ensures Constrained(r, a[i]) == a[i] == Clamp(r, a[i]) {
      AcceptedStays(r, a[i]);
    }
    forall i | 0 <= i < Count(size)
      ensures Accepts(r, Constrained(r, a[i])) <==> Repairs(r, a[i])
      ensures r.quant == 0 || ((r.max - r.min) % r.quant == 0 && SumFits(r, r.max)) ==> Accepts(r, Constrained(r, a[i]))
    {
      ConstrainedIsAccepted(r, a[i]);
    }
    hide Accepts, Constrained, Clamp, Repairs, Floor;
    inexact := ConstrainRange(a, size, r, false);
    good := CheckRange(a, size, r);
    assert was ==> forall i | 0 <= i < a.Length :: a[i] == before[i];
  }

  /** SANE_CONSTRAINT_WORD_LIST: the value becomes a word of the list; with no overflow, the first of the nearest. */
  method ConstrainWordList(list: seq<int>, w: int, info: bool) returns (v: int, inexact: bool)
    requires IsWordList(list) && IsWord(w)
    ensures v in list[1..] && inexact == (info || v != w)
    ensures DifferencesFit(list, w) ==> forall i | 0 < i < |list| :: Distance(v, w) <= Distance(list[i], w)
    ensures DifferencesFit(list, w) && w in list[1..] ==> v == w
  {
    hide AbsDiff;
    var k := 1;
    var d := AbsDiff(w, list[1]);
    var i := 1;
    while i <= list[0]
      invariant 1 <= i <= |list| && 1 <= k < |list| && k <= i && d == AbsDiff(w, list[k])
      invariant forall j | 0 < j < i :: d <= AbsDiff(w, list[j])
    {
      var vh := AbsDiff(w, list[i]);
      if vh < d {
        d, k := vh, i;
      }
      i := i + 1;
    }
    v := list[k];
    assert v == list[1..][k - 1];
    if DifferencesFit(list, w) {
      forall j | 0 < j < |list| ensures AbsDiff(w, list[j]) == Distance(w, list[j]) {
        AbsIsDistance(w, list[j]);
      }
      if w in list[1..] {
        var j :| 0 <= j < |list| - 1 && list[1..][j] == w;
        assert list[j + 1] == w;
      }
    }
    inexact := info || w != v;
  }

  method CheckWordList(list: seq<int>, w: int) returns (good: bool)
    requires IsWordList(list)
    ensures good <==> w in list[1..]
  {
    var i := 1;
    while w != list[i]
      invariant 1 <= i < |list| && forall j | 1 <= j < i :: list[j] != w
      decreases |list| - i
    {
      if i >= list[0] {
        return false;
      }
      i := i + 1;
    }
    assert list[1..][i - 1] == w;
    return true;
  }

  /** SANE_CONSTRAINT_STRING_LIST. */
  method ConstrainString(list: seq<seq<Byte>>, value: seq<Byte>) returns (c: Choice)
    ensures Chooses(list, value, c)
  {
    var numMatches, chosen := 0, -1;
    for i := 0 to |list|
      invariant forall j | 0 <= j < i :: !Same(value, list[j])
      invariant numMatches == 0 ==> forall j | 0 <= j < i :: !Begins(value, list[j])
      invariant numMatches > 0 ==> 0 <= chosen < i && Begins(value, list[chosen])
      invariant numMatches == 1 ==> forall j | 0 <= j < i && Begins(value, list[j]) :: j == chosen
      invariant numMatches > 1 ==> exists j, k | 0 <= j < k < i :: Begins(value, list[j]) && Begins(value, list[k])
      invariant numMatches >= 0
    {
      if Begins(value, list[i]) {
        chosen := i;
        if |value| == |list[i]| {
          assert Same(value, list[i]);
          return Good(list[i]);
        }
        numMatches := numMatches + 1;
      }
    }
    if numMatches > 1 {
      return Inval;
    } else if numMatches == 1 {
      assert Unique(list, value, chosen);
      return Good(list[chosen]);
    }
    return Inval;
  }

  method CheckString(list: seq<seq<Byte>>, value: seq<Byte>) returns (good: bool)
    ensures good <==> value in list
  {
    for i := 0 to |list|
      invariant value !in list[..i]
    {
      if value == list[i] {
        return true;
      }
    }
    assert list[..|list|] == list;
    return false;
  }

  /** What is chosen is accepted, and choosing again leaves it alone. */
  method ChooseTwice(list: seq<seq<Byte>>, value: seq<Byte>) returns (c: Choice, again: Choice, good: bool)
    ensures c.Good? ==> again == c && good
  {
    c := ConstrainString(list, value);
    again, good := c, false;
    if c.Good? {
      again := ConstrainString(list, c.value);
      good := CheckString(list, c.value);
      ChoiceStays(list, value, c.value, again);
    }
  }
}
