/** lib/strcasestr.c: a search that ignores case. The original jumps into and between two loops; here place says where
    it has jumped to. Strings are without their terminator. */
module StrCaseStr {

  import opened Machine

  /** A string of C: no NUL but the terminator, which stands at the end. */
  predicate IsCString(s: seq<Byte>) {
    forall i | 0 <= i < |s| :: s[i] != 0
  }

  function At(s: seq<Byte>, i: nat): Byte
    requires i <= |s|
  {
    if i < |s| then s[i] else 0
  }

  /** The needle, without regard to case, at offset i. */
  ghost predicate MatchesAt(haystack: seq<Byte>, needle: seq<Byte>, i: nat) {
    i + |needle| <= |haystack| && forall j | 0 <= j < |needle| :: Lower(haystack[i + j]) == Lower(needle[j])
  }

  datatype Offset = Null | Found(at: nat)

  /** The naive search. */
  ghost predicate IsFirst(haystack: seq<Byte>, needle: seq<Byte>, r: Offset) {
    match r
    case Null => forall i: nat :: !MatchesAt(haystack, needle, i)
    case Found(at) => MatchesAt(haystack, needle, at) && forall i: nat :: i < at ==> !MatchesAt(haystack, needle, i)
  }

  /** The labels shloop and jin, and the beginning of the first loop. */
  datatype Label = Scan | ShLoop | Jin

  /** Compares what follows the first two characters, two characters to a turn. */
  method MatchRest(haystack: seq<Byte>, needle: seq<Byte>, start: nat) returns (found: bool)
    requires IsCString(haystack) && IsCString(needle) && |needle| >= 2 && start + 2 <= |haystack|
    requires Lower(haystack[start]) == Lower(needle[0]) && Lower(haystack[start + 1]) == Lower(needle[1])
    ensures found <==> MatchesAt(haystack, needle, start)
  {
    var rhaystack, n := start + 2, 2;
    var a := At(needle, n);
    if Lower(At(haystack, rhaystack)) == Lower(a) {
      while true
        invariant 2 <= n <= |needle| && rhaystack == start + n <= |haystack| && a == At(needle, n)
        invariant forall j | 0 <= j < n :: Lower(haystack[start + j]) == Lower(needle[j])
        invariant Lower(At(haystack, rhaystack)) == Lower(a)
        decreases |needle| - n
      {
        if a == 0 {
          return true;
        }
        rhaystack, n := rhaystack + 1, n + 1;
        a := At(needle, n);
        if Lower(At(haystack, rhaystack)) != Lower(a) {
          break;
        }
        if a == 0 {
          return true;
        }
        rhaystack, n := rhaystack + 1, n + 1;
        a := At(needle, n);
        if Lower(At(haystack, rhaystack)) != Lower(a) {
          break;
        }
      }
    }
    found := a == 0;
  }

  /** strcasestr: the least offset at which the needle matches, or NULL if there is none. */
  method StrCaseStr(haystack: seq<Byte>, needle: seq<Byte>) returns (r: Offset)
    requires IsCString(haystack) && IsCString(needle)
    ensures IsFirst(haystack, needle, r)
  {
    var b := At(needle, 0);
    if b == 0 {
      return Found(0);
    }
    var h := 0;
    while At(haystack, h) != 0 && Lower(At(haystack, h)) != Lower(b)
      invariant h <= |haystack|
      invariant forall i: nat :: i < h ==> !MatchesAt(haystack, needle, i)
      decreases |haystack| - h
    {
      Differs(haystack, needle, h, 0);
      h := h + 1;
    }
    if At(haystack, h) == 0 {
      return Null;
    }
    var c := At(needle, 1);
    if c == 0 {
      assert MatchesAt(haystack, needle, h);
      return Found(h);
    }
    var place := Jin;
    while true
      invariant h < |haystack| && |needle| >= 2
      invariant forall i: nat :: i < h ==> !MatchesAt(haystack, needle, i)
      invariant place == Scan ==> !MatchesAt(haystack, needle, h)
      invariant place == Jin ==> Lower(haystack[h]) == Lower(b)
      decreases |haystack| - h, match place case ShLoop => 2 case Jin => 1 case Scan => 0
    {
      match place {
        case Scan =>
          h := h + 1;
          if At(haystack, h) == 0 {
            return Null;
          }
          if Lower(haystack[h]) == Lower(b) {
            place := Jin;
          } else {
            Differs(haystack, needle, h, 0);
            h := h + 1;
            if At(haystack, h) == 0 {
              return Null;
            }
            place := ShLoop;
          }
        case ShLoop =>
          if Lower(haystack[h]) != Lower(b) {
            Differs(haystack, needle, h, 0);
            place := Scan;
          } else {
            place := Jin;
          }
        case Jin =>
          h := h + 1;
          if At(haystack, h) == 0 {
            return Null;
          }
          if Lower(haystack[h]) != Lower(c) {
            Differs(haystack, needle, h - 1, 1);
            place := ShLoop;
          } else {
            h := h - 1;
            var found := MatchRest(haystack, needle, h);
            if found {
              return Found(h);
            }
            place := Scan;
          }
      }
    }
  }

  lemma Differs(haystack: seq<Byte>, needle: seq<Byte>, i: nat, j: nat)
    requires j < |needle| && i + j < |haystack| && Lower(haystack[i + j]) != Lower(needle[j])
    ensures !MatchesAt(haystack, needle, i)
  {
  }

  // ---- Letters ------------------------------------------------------------------------------

  /** The 26 capitals and their small letters; everything else is only the same as itself. */
  predicate SameLetter(c: Byte, d: Byte) {
    c == d || (65 <= c <= 90 && d as int == c as int + 32) || (65 <= d <= 90 && c as int == d as int + 32)
  }

  lemma LowerIsSameLetter(c: Byte, d: Byte)
    ensures Lower(c) == Lower(d) <==> SameLetter(c, d)
  {
  }

  /** A match is a match letter by letter. */
  lemma MatchesLetters(haystack: seq<Byte>, needle: seq<Byte>, i: nat)
    ensures MatchesAt(haystack, needle, i) <==>
              i + |needle| <= |haystack| && forall j | 0 <= j < |needle| :: SameLetter(haystack[i + j], needle[j])
  {
    forall j | 0 <= j < |needle| && i + |needle| <= |haystack|
      ensures Lower(haystack[i + j]) == Lower(needle[j]) <==> SameLetter(haystack[i + j], needle[j])
    {
      LowerIsSameLetter(haystack[i + j], needle[j]);
    }
  }

  /** Writing some letters of the needle or of the haystack the other way changes nothing. */
  lemma CaseDoesNotMatter(haystack: seq<Byte>, haystack2: seq<Byte>, needle: seq<Byte>, needle2: seq<Byte>, r: Offset)
    requires |haystack| == |haystack2| && forall i | 0 <= i < |haystack| :: SameLetter(haystack[i], haystack2[i])
    requires |needle| == |needle2| && forall i | 0 <= i < |needle| :: SameLetter(needle[i], needle2[i])
    ensures IsFirst(haystack, needle, r) <==> IsFirst(haystack2, needle2, r)
  {
    forall i: nat ensures MatchesAt(haystack, needle, i) <==> MatchesAt(haystack2, needle2, i) {
      MatchesLetters(haystack, needle, i);
      MatchesLetters(haystack2, needle2, i);
    }
  }

  /** "ow" in "cOW". */
  method FindInside() returns (r: Offset)
    ensures r == Found(1)
  {
    var haystack, needle: seq<Byte> := [99, 79, 87], [111, 119];
    r := StrCaseStr(haystack, needle);
    assert MatchesAt(haystack, needle, 1);
    assert Lower(haystack[0]) != Lower(needle[0]);
    assert !MatchesAt(haystack, needle, 0);
  }
}
