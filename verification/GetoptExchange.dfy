/** lib/getopt.c, exchange: two adjacent segments of argv change places, in place. */
module GetoptExchange {

  /** s with the segments [b, m) and [m, t) exchanged and each kept in order. */
  function Exchanged<T>(s: seq<T>, b: nat, m: nat, t: nat): (r: seq<T>)
    requires b <= m <= t <= |s|
    ensures |r| == |s|
  {
    s[..b] + s[m..t] + s[b..m] + s[t..]
  }

  /** The segments before, between and behind, seen from a place in front of them. */
  lemma ExchangedParts<T>(s: seq<T>, start: nat, b: nat, m: nat, t: nat)
    requires start <= b <= m <= t <= |s|
    ensures var e := Exchanged(s, b, m, t);
            && e[start..b + (t - m)] == s[start..b] + s[m..t] && e[b + (t - m)..t] == s[b..m]
            && e[..start] == s[..start] && e[t..] == s[t..]
  {
  }

  lemma ExchangedPermutes<T>(s: seq<T>, b: nat, m: nat, t: nat)
    requires b <= m <= t <= |s|
    ensures multiset(Exchanged(s, b, m, t)) == multiset(s)
  {
    assert s == s[..b] + s[b..m] + s[m..t] + s[t..];
  }

  /** Where element k of an exchange comes from. */
  function Origin(b: nat, m: nat, t: nat, k: nat): int {
    if k < b || t <= k then k else if k < b + (t - m) then k + (m - b) else k - (t - m)
  }

  /** r is s with [b, m) and [m, t) exchanged, element by element. */
  ghost predicate IsExchange<T>(r: seq<T>, s: seq<T>, b: nat, m: nat, t: nat) {
    && b <= m <= t <= |s| == |r|
    && forall k | 0 <= k < |r| :: r[k] == s[Origin(b, m, t, k)]
  }

  lemma ExchangeByElements<T>(r: seq<T>, s: seq<T>, b: nat, m: nat, t: nat)
    requires b <= m <= t <= |s|
    ensures IsExchange(r, s, b, m, t) <==> r == Exchanged(s, b, m, t)
  {
    var e := Exchanged(s, b, m, t);
    assert forall k | 0 <= k < |e| :: e[k] == s[Origin(b, m, t, k)];
  }

  /** Where element k comes from when the segments of length len at i and at j are swapped. */
  function Partner(i: nat, j: nat, len: nat, k: nat): int {
    if i <= k < i + len then k + (j - i) else if j <= k < j + len then k - (j - i) else k
  }

  ghost predicate IsSwap<T>(r: seq<T>, s: seq<T>, i: nat, j: nat, len: nat) {
    && i + len <= j && j + len <= |s| == |r|
    && forall k | 0 <= k < |r| :: r[k] == s[Partner(i, j, len, k)]
  }

  /** When the lower segment is the shorter one, swapping it with the far end of the upper segment leaves
      an exchange of what is below that end. */
  lemma SwapLowerSegment<T>(e: seq<T>, s: seq<T>, r: seq<T>, b: nat, m: nat, t: nat)
    requires IsExchange(e, s, b, m, t) && t - m > m - b
    requires IsSwap(r, s, b, t - (m - b), m - b)
    ensures IsExchange(e, r, b, m, t - (m - b))
  {
    forall k | 0 <= k < |e|
      ensures e[k] == r[Origin(b, m, t - (m - b), k)]
    {
      var o := Origin(b, m, t - (m - b), k);
      assert r[o] == s[Partner(b, t - (m - b), m - b, o)];
    }
  }

  /** When it is not, swapping the upper segment with the near end of the lower one leaves an exchange of
      what is above that end. */
  lemma SwapUpperSegment<T>(e: seq<T>, s: seq<T>, r: seq<T>, b: nat, m: nat, t: nat)
    requires IsExchange(e, s, b, m, t) && t - m <= m - b
    requires IsSwap(r, s, b, m, t - m)
    ensures IsExchange(e, r, b + (t - m), m, t)
  {
    forall k | 0 <= k < |e|
      ensures e[k] == r[Origin(b + (t - m), m, t, k)]
    {
      var o := Origin(b + (t - m), m, t, k);
      assert r[o] == s[Partner(b, m, t - m, o)];
    }
  }

  lemma EmptySegment<T>(e: seq<T>, s: seq<T>, b: nat, m: nat, t: nat)
    requires IsExchange(e, s, b, m, t) && (b == m || m == t)
    ensures e == s
  {
  }

  /** The inner loops of exchange. */
  method SwapSegments<T>(a: array<T>, i: nat, j: nat, len: nat)
    requires i + len <= j && j + len <= a.Length
    modifies a
    ensures IsSwap(a[..], old(a[..]), i, j, len)
  {
    for k := 0 to len
      invariant forall n | 0 <= n < a.Length :: a[n] == old(a[..])[Partner(i, j, k, n)]
    {
      var tem := a[i + k];
      a[i + k] := a[j + k];
      a[j + k] := tem;
    }
  }

  method SwapLower<T>(a: array<T>, bottom: nat, middle: nat, top: nat, ghost e: seq<T>)
    requires IsExchange(e, a[..], bottom, middle, top) && top - middle > middle - bottom
    modifies a
    ensures IsExchange(e, a[..], bottom, middle, top - (middle - bottom))
  {
    SwapSegments(a, bottom, top - (middle - bottom), middle - bottom);
    SwapLowerSegment(e, old(a[..]), a[..], bottom, middle, top);
  }

  method SwapUpper<T>(a: array<T>, bottom: nat, middle: nat, top: nat, ghost e: seq<T>)
    requires IsExchange(e, a[..], bottom, middle, top) && top - middle <= middle - bottom
    modifies a
    ensures IsExchange(e, a[..], bottom + (top - middle), middle, top)
  {
    SwapSegments(a, bottom, middle, top - middle);
    SwapUpperSegment(e, old(a[..]), a[..], bottom, middle, top);
  }

  /** exchange, for the bounds first_nonopt, last_nonopt and optind: a rotation in place. */
  method ExchangeSegments<T>(a: array<T>, first: nat, last: nat, end: nat)
    requires first <= last <= end <= a.Length
    modifies a
    ensures a[..] == Exchanged(old(a[..]), first, last, end) && multiset(a[..]) == multiset(old(a[..]))
  {
    hide IsExchange, Exchanged;
    var bottom, middle, top := first, last, end;
    ghost var e := Exchanged(a[..], first, last, end);
    ExchangeByElements(e, a[..], first, last, end);
    while top > middle && middle > bottom
      invariant bottom <= middle <= top
      invariant IsExchange(e, a[..], bottom, middle, top)
      decreases top - bottom
    {
      if top - middle > middle - bottom {
        var len := middle - bottom;
        SwapLower(a, bottom, middle, top, e);
        top := top - len;
      } else {
        var len := top - middle;
        SwapUpper(a, bottom, middle, top, e);
        bottom := bottom + len;
      }
    }
    EmptySegment(e, a[..], bottom, middle, top);
    ExchangedPermutes(old(a[..]), first, last, end);
  }
}
