/** Order statistics over exact reals: sorting, minimum and maximum, and the
    linear-interpolation quantile that pandas uses by default. */
module Quantiles {

  predicate Sorted(xs: seq<real>) {
    forall i, j :: 0 <= i <= j < |xs| ==> xs[i] <= xs[j]
  }

  /** Every element of `r` is also an element of `xs`. */
  lemma SameElements(xs: seq<real>, r: seq<real>, k: int)
    requires multiset(r) == multiset(xs) && 0 <= k < |r|
    ensures r[k] in xs
  {
    assert r[k] in multiset(r);
  }

  /** Inserts `x` into the sorted sequence `xs` at its place. */
  function Insert(x: real, xs: seq<real>): (r: seq<real>)
    requires Sorted(xs)
    ensures Sorted(r)
    ensures multiset(r) == multiset(xs) + multiset{x}
  {
    if xs == [] || x <= xs[0] then [x] + xs
    else
      var rest := Insert(x, xs[1..]);
      InsertAbove(x, xs, rest);
      assert xs == [xs[0]] + xs[1..];
      [xs[0]] + rest
  }

  /** The elements Insert places after the head of `xs` are all at least that head. */
  lemma InsertAbove(x: real, xs: seq<real>, rest: seq<real>)
    requires Sorted(xs) && xs != [] && xs[0] < x
    requires multiset(rest) == multiset(xs[1..]) + multiset{x}
    ensures forall k :: 0 <= k < |rest| ==> xs[0] <= rest[k]
  {
    forall k | 0 <= k < |rest| ensures xs[0] <= rest[k] {
      assert rest[k] in multiset(rest);
      if rest[k] != x {
        assert rest[k] in multiset(xs[1..]);
        assert rest[k] in xs[1..];
      }
    }
  }

  /** The values of `xs` in ascending order (an insertion sort). */
  function Sort(xs: seq<real>): (r: seq<real>)
    ensures Sorted(r)
    ensures multiset(r) == multiset(xs)
    ensures |r| == |xs|
  {
    if xs == [] then []
    else
      assert xs == [xs[0]] + xs[1..];
      Insert(xs[0], Sort(xs[1..]))
  }

  /** Sorting leaves an already sorted sequence as it is. */
  lemma {:induction false} SortSorted(xs: seq<real>)
    requires Sorted(xs)
    ensures Sort(xs) == xs
  {
    if xs != [] {
      SortSorted(xs[1..]);
      assert xs == [xs[0]] + xs[1..];
    }
  }

  function Min(xs: seq<real>): (m: real)
    requires |xs| > 0
    ensures m in xs
    ensures forall k :: 0 <= k < |xs| ==> m <= xs[k]
  {
    if |xs| == 1 then xs[0]
    else
      var m := Min(xs[1..]);
      if xs[0] <= m then xs[0] else m
  }

  function Max(xs: seq<real>): (m: real)
    requires |xs| > 0
    ensures m in xs
    ensures forall k :: 0 <= k < |xs| ==> xs[k] <= m
  {
    if |xs| == 1 then xs[0]
    else
      var m := Max(xs[1..]);
      if m <= xs[0] then xs[0] else m
  }

  /** For a >= 0 and 0 <= t <= 1, the product a * t lies in [0, a]. */
  lemma ScaleBounds(a: real, t: real)
    requires 0.0 <= a && 0.0 <= t <= 1.0
    ensures 0.0 <= a * t <= a
  {
    assert a - a * t == a * (1.0 - t);
  }

  lemma FloorBounds(h: real, m: nat)
    requires 0.0 <= h <= m as real
    ensures 0 <= h.Floor <= m
  {
  }

  /** The position `h = (n - 1) * p` of the p-quantile among n sorted values. */
  function Position(n: nat, p: real): (h: real)
    requires n > 0 && 0.0 <= p <= 1.0
    ensures 0.0 <= h <= (n - 1) as real
    ensures 0 <= h.Floor < n
  {
    var h := (n - 1) as real * p;
    ScaleBounds((n - 1) as real, p);
    FloorBounds(h, n - 1);
    h
  }

  /** The point a fraction t of the way from a to b. */
  function Lerp(a: real, b: real, t: real): real {
    a + (b - a) * t
  }

  lemma LerpBounds(a: real, b: real, t: real)
    requires a <= b && 0.0 <= t <= 1.0
    ensures a <= Lerp(a, b, t) <= b
  {
    var d := b - a;
    ScaleBounds(d, t);
    assert Lerp(a, b, t) == a + d * t;
  }

  lemma LerpMonotone(a: real, b: real, t: real, t': real)
    requires a <= b && 0.0 <= t <= t' <= 1.0
    ensures Lerp(a, b, t) <= Lerp(a, b, t')
  {
    assert Lerp(a, b, t') - Lerp(a, b, t) == (b - a) * (t' - t);
    ScaleBounds(b - a, t' - t);
  }

  /** Linear interpolation between the two sorted neighbours of position
      h = (n - 1) * p, namely s[lo] and s[lo + 1] with lo = floor(h). */
  function Interpolate(s: seq<real>, p: real): (q: real)
    requires |s| > 0 && 0.0 <= p <= 1.0 && Sorted(s)
    ensures s[0] <= q <= s[|s| - 1]
    ensures var lo := Position(|s|, p).Floor;
      s[lo] <= q && (lo + 1 < |s| ==> q <= s[lo + 1])
  {
    var h := Position(|s|, p);
    var lo := h.Floor;
    if lo + 1 < |s| then
      LerpBounds(s[lo], s[lo + 1], h - lo as real);
      Lerp(s[lo], s[lo + 1], h - lo as real)
    else
      s[lo]
  }

  /** The p-quantile of `xs` (pandas' default `linear` method), for 0 <= p <= 1. */
  function Quantile(xs: seq<real>, p: real): (q: real)
    requires |xs| > 0 && 0.0 <= p <= 1.0
    ensures Min(xs) <= q <= Max(xs)
  {
    var s := Sort(xs);
    SortedEnds(xs);
    Interpolate(s, p)
  }

  /** The first sorted value is the minimum and the last the maximum. */
  lemma SortedEnds(xs: seq<real>)
    requires |xs| > 0
    ensures Sort(xs)[0] == Min(xs) && Sort(xs)[|xs| - 1] == Max(xs)
  {
    var s := Sort(xs);
    SameElements(xs, s, 0);
    SameElements(xs, s, |xs| - 1);
    assert Min(xs) in multiset(s);
    assert Max(xs) in multiset(s);
  }

  /** Interpolation is monotone in p along a sorted sequence. */
  lemma {:induction false} InterpolateMonotone(s: seq<real>, p: real, p': real)
    requires |s| > 0 && Sorted(s) && 0.0 <= p <= p' <= 1.0
    ensures Interpolate(s, p) <= Interpolate(s, p')
  {
    var h, h' := Position(|s|, p), Position(|s|, p');
    var lo, lo' := h.Floor, h'.Floor;
    assert h <= h' by {
      assert h' - h == (|s| - 1) as real * (p' - p);
      ScaleBounds((|s| - 1) as real, p' - p);
    }
    if lo == lo' {
      if lo + 1 < |s| {
        LerpMonotone(s[lo], s[lo + 1], h - lo as real, h' - lo as real);
      }
    } else {
      assert Interpolate(s, p) <= s[lo + 1];
      assert s[lo + 1] <= s[lo'];
    }
  }

  /** The quantile is monotone in p: in particular Q1 <= Q3. */
  lemma QuantileMonotone(xs: seq<real>, p: real, p': real)
    requires |xs| > 0 && 0.0 <= p <= p' <= 1.0
    ensures Quantile(xs, p) <= Quantile(xs, p')
  {
    InterpolateMonotone(Sort(xs), p, p');
  }

  /** If every value equals c, every quantile is c. */
  lemma {:induction false} ConstantQuantile(xs: seq<real>, c: real, p: real)
    requires |xs| > 0 && 0.0 <= p <= 1.0
    requires forall k :: 0 <= k < |xs| ==> xs[k] == c
    ensures Quantile(xs, p) == c
  {
    SortedEnds(xs);
    assert Min(xs) == c && Max(xs) == c;
  }
}
