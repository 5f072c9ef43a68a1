// Douglas-Peucker simplification as the map builder runs it, with an explicit
// stack (tools/mapdata/build_mapdata.py). Distances are compared as squares, which
// orders them the same way and keeps the arithmetic exact.
module Simplify {
  import opened Geometry
  import opened Reals

  function Square(a: real): real { a * a }

  function SqDist(p: Point, q: Point): real {
    Square(p.x - q.x) + Square(p.y - q.y)
  }

  function Dot(p: Point, a: Point, b: Point): real {
    (p.x - a.x) * (b.x - a.x) + (p.y - a.y) * (b.y - a.y)
  }

  // Where the point of ab nearest to p lies on it.
  function Nearest(p: Point, a: Point, b: Point): (t: real)
    requires a != b
  {
    SqDistPositive(a, b);
    var t := Dot(p, a, b) / SqDist(b, a);
    if t < 0.0 then 0.0 else if t > 1.0 then 1.0 else t
  }

  // The square of the distance from p to the segment ab.
  function PerpDist2(p: Point, a: Point, b: Point): real {
    if a == b then SqDist(p, a) else SqDist(p, At(a, b, Nearest(p, a, b)))
  }

  lemma SqDistPositive(a: Point, b: Point)
    ensures SqDist(a, b) >= 0.0
    ensures a != b ==> SqDist(a, b) > 0.0 && SqDist(b, a) > 0.0
  {
    var dx, dy := a.x - b.x, a.y - b.y;
    Product(dx, dx);
    Product(dy, dy);
    Product(-dx, -dx);
    Product(-dy, -dy);
  }

  // The squared distance to a point of the segment, as a quadratic in its share.
  lemma DistAt(p: Point, a: Point, b: Point, s: real)
    ensures SqDist(p, At(a, b, s)) == SqDist(p, a) - 2.0 * s * Dot(p, a, b) + s * s * SqDist(b, a)
  {
    LerpSquare(p.x, a.x, b.x, s);
    LerpSquare(p.y, a.y, b.y, s);
    Spread(Square(p.x - a.x), (p.x - a.x) * (b.x - a.x), Square(b.x - a.x),
           Square(p.y - a.y), (p.y - a.y) * (b.y - a.y), Square(b.y - a.y), s);
  }

  lemma LerpSquare(p: real, a: real, b: real, s: real)
    ensures Square(p - Lerp(a, b, s)) == Square(p - a) - 2.0 * s * ((p - a) * (b - a)) + s * s * Square(b - a)
  {
    assert p - Lerp(a, b, s) == (p - a) - s * (b - a);
    Quadratic(p - a, b - a, s);
  }

  lemma Quadratic(e: real, d: real, s: real)
    ensures Square(e - s * d) == Square(e) - 2.0 * s * (e * d) + s * s * Square(d)
  {
    var f := s * d;
    assert Square(e - f) == Square(e) - 2.0 * (e * f) + f * f;
    assert e * f == s * (e * d);
    assert f * f == s * s * (d * d);
  }

  lemma Spread(a: real, b: real, c: real, d: real, e: real, f: real, s: real)
    ensures (a - 2.0 * s * b + s * s * c) + (d - 2.0 * s * e + s * s * f) == (a + d) - 2.0 * s * (b + e) + s * s * (c + f)
  {
    var q := s * s;
    assert q * (c + f) == q * c + q * f;
  }

  // PerpDist2 really is the least squared distance to a point of the segment.
  lemma {:induction false} PerpDistIsLeast(p: Point, a: Point, b: Point, s: real)
    requires 0.0 <= s <= 1.0
    ensures PerpDist2(p, a, b) <= SqDist(p, At(a, b, s))
  {
    if a == b {
      LerpEnds(a.x, b.x, s);
      LerpEnds(a.y, b.y, s);
    } else {
      SqDistPositive(a, b);
      var m, l := Dot(p, a, b), SqDist(b, a);
      var t := Nearest(p, a, b);
      var r := m / l;
      assert r * l == m;
      DistAt(p, a, b, s);
      DistAt(p, a, b, t);
      Excess(l, m, r, s, t);
    }
  }

  lemma Excess(l: real, m: real, r: real, s: real, t: real)
    requires l > 0.0 && r * l == m && 0.0 <= s <= 1.0
    requires t == if r < 0.0 then 0.0 else if r > 1.0 then 1.0 else r
    ensures -2.0 * t * m + t * t * l <= -2.0 * s * m + s * s * l
  {
    var f := s - t;
    var g := (s + t) - 2.0 * r;
    assert f * g >= 0.0 by {
      if t == r { assert g == f; Product(f, f); }
      else if r < 0.0 { NonNegative(f, g); }
      else { NonNegative(-f, -g); assert (-f) * (-g) == f * g; }
    }
    NonNegative(f * g, l);
    assert f * g == s * s - t * t - 2.0 * (r * f);
    assert (r * f) * l == (s - t) * m;
    assert (f * g) * l == s * s * l - t * t * l - 2.0 * (s * m) + 2.0 * (t * m);
  }

  // And it is attained: some point of the segment is at exactly that distance.
  lemma PerpDistAttained(p: Point, a: Point, b: Point) returns (s: real)
    ensures 0.0 <= s <= 1.0 && PerpDist2(p, a, b) == SqDist(p, At(a, b, s))
  {
    if a == b {
      LerpEnds(a.x, b.x, 0.0);
      LerpEnds(a.y, b.y, 0.0);
      s := 0.0;
    } else {
      s := Nearest(p, a, b);
    }
  }

  // ---- the recursive meaning of the algorithm

  predicate Span(points: seq<Point>, lo: int, hi: int) { 0 <= lo < hi < |points| }

  function Gap2(points: seq<Point>, i: int, lo: int, hi: int): real
    requires Span(points, lo, hi) && lo <= i <= hi
  {
    PerpDist2(points[i], points[lo], points[hi])
  }

  // The first farthest point strictly between lo and n, and its squared distance
  // to the chord lo-hi; -1 when every one of them lies on the chord.
  function Farthest(points: seq<Point>, lo: int, hi: int, n: int): (r: (real, int))
    requires Span(points, lo, hi) && lo < n <= hi
    ensures r.1 == -1 ==> r.0 == 0.0
    ensures r.1 != -1 ==> lo < r.1 < n && r.0 == Gap2(points, r.1, lo, hi)
    ensures forall i :: lo < i < n ==> Gap2(points, i, lo, hi) <= r.0
    ensures forall i :: lo < i < r.1 ==> Gap2(points, i, lo, hi) < r.0
    decreases n - lo
  {
    if n == lo + 1 then (0.0, -1)
    else
      var r := Farthest(points, lo, hi, n - 1);
      var d := Gap2(points, n - 1, lo, hi);
      if d > r.0 then (d, n - 1) else r
  }

  // The indices kept strictly between lo and hi.
  function Kept(points: seq<Point>, tol2: real, lo: int, hi: int): (s: set<int>)
    requires Span(points, lo, hi)
    ensures forall i :: i in s ==> lo < i < hi
    decreases hi - lo
  {
    var (dmax, idx) := Farthest(points, lo, hi, hi);
    if idx != -1 && dmax > tol2 then Kept(points, tol2, lo, idx) + {idx} + Kept(points, tol2, idx, hi) else {}
  }

  // l and h are consecutive kept indices around i.
  ghost predicate Around(kept: set<int>, l: int, i: int, h: int) {
    l < i < h && l in kept && h in kept && forall k :: k in kept ==> !(l < k < h)
  }

  // Every dropped point is within the tolerance of the segment joining the kept
  // points on either side of it.
  lemma {:induction false} DroppedIsNear(points: seq<Point>, tol2: real, lo: int, hi: int, i: int)
      returns (l: int, h: int)
    requires Span(points, lo, hi) && lo < i < hi && tol2 >= 0.0
    requires i !in Kept(points, tol2, lo, hi)
    ensures Around(Kept(points, tol2, lo, hi) + {lo, hi}, l, i, h)
    ensures lo <= l && h <= hi && Gap2(points, i, l, h) <= tol2
    decreases hi - lo
  {
    hide PerpDist2, Farthest;
    var (dmax, idx) := Farthest(points, lo, hi, hi);
    if idx != -1 && dmax > tol2 {
      if i < idx {
        l, h := DroppedIsNear(points, tol2, lo, idx, i);
      } else {
        l, h := DroppedIsNear(points, tol2, idx, hi, i);
      }
    } else {
      l, h := lo, hi;
    }
  }

  // Every kept inner point was needed: it was the farthest point, beyond the
  // tolerance, of a chord between two kept points.
  lemma {:induction false} KeptIsFar(points: seq<Point>, tol2: real, lo: int, hi: int, i: int) returns (l: int, h: int)
    requires Span(points, lo, hi) && i in Kept(points, tol2, lo, hi)
    ensures lo <= l < i < h <= hi && {l, h} <= Kept(points, tol2, lo, hi) + {lo, hi}
    ensures Gap2(points, i, l, h) > tol2
    ensures forall k :: l < k < h ==> Gap2(points, k, l, h) <= Gap2(points, i, l, h)
    decreases hi - lo
  {
    var (dmax, idx) := Farthest(points, lo, hi, hi);
    if i < idx {
      l, h := KeptIsFar(points, tol2, lo, idx, i);
    } else if i > idx {
      l, h := KeptIsFar(points, tol2, idx, hi, i);
    } else {
      l, h := lo, hi;
    }
  }

  // ---- the loop

  // The points whose flag is set, in order.
  function Select(points: seq<Point>, keep: seq<bool>): (r: seq<Point>)
    requires |points| == |keep|
  {
    if points == [] then []
    else
      var n := |points| - 1;
      Select(points[..n], keep[..n]) + (if keep[n] then [points[n]] else [])
  }

  function Flagged(keep: seq<bool>): set<int> {
    set i | 0 <= i < |keep| && keep[i]
  }

  predicate Spans(points: seq<Point>, stack: seq<(int, int)>) {
    forall k :: 0 <= k < |stack| ==> Span(points, stack[k].0, stack[k].1)
  }

  // What the chords still on the stack will keep.
  function Pending(points: seq<Point>, tol2: real, stack: seq<(int, int)>): set<int>
    requires Spans(points, stack)
  {
    if stack == [] then {}
    else
      var n := |stack| - 1;
      Pending(points, tol2, stack[..n]) + Kept(points, tol2, stack[n].0, stack[n].1)
  }

  // The termination measure of the stack loop.
  function Work(points: seq<Point>, stack: seq<(int, int)>): nat
    requires Spans(points, stack)
  {
    if stack == [] then 0
    else
      var n := |stack| - 1;
      Work(points, stack[..n]) + 2 * (stack[n].1 - stack[n].0) - 1
  }

  lemma Push(points: seq<Point>, tol2: real, stack: seq<(int, int)>, lo: int, hi: int)
    requires Spans(points, stack) && Span(points, lo, hi)
    ensures Spans(points, stack + [(lo, hi)])
    ensures Pending(points, tol2, stack + [(lo, hi)]) == Pending(points, tol2, stack) + Kept(points, tol2, lo, hi)
    ensures Work(points, stack + [(lo, hi)]) == Work(points, stack) + 2 * (hi - lo) - 1
  {
    assert (stack + [(lo, hi)])[..|stack|] == stack;
  }

  // The answer for a list the loop runs on.
  function Result(points: seq<Point>, tol2: real): set<int>
    requires |points| >= 3
  {
    Kept(points, tol2, 0, |points| - 1) + {0, |points| - 1}
  }

  ghost predicate Invariant(points: seq<Point>, tol2: real, keep: seq<bool>, stack: seq<(int, int)>) {
    && |keep| == |points| >= 3 && Spans(points, stack)
    && Flagged(keep) + Pending(points, tol2, stack) == Result(points, tol2)
  }

  lemma Start(points: seq<Point>, tol2: real, keep: seq<bool>)
    requires |keep| == |points| >= 3
    requires forall i :: 0 <= i < |keep| ==> keep[i] == (i == 0 || i == |keep| - 1)
    ensures Invariant(points, tol2, keep, [(0, |points| - 1)])
  {
    assert Flagged(keep) == {0, |points| - 1};
    Push(points, tol2, [], 0, |points| - 1);
    assert [] + [(0, |points| - 1)] == [(0, |points| - 1)];
  }

  lemma SplitSets(keep: seq<bool>, pending: set<int>, left: set<int>, right: set<int>, idx: int, all: set<int>)
    requires 0 <= idx < |keep| && Flagged(keep) + (pending + (left + {idx} + right)) == all
    ensures Flagged(keep[idx := true]) + (pending + left + right) == all
  {
    assert Flagged(keep[idx := true]) == Flagged(keep) + {idx};
  }

  // One turn of the loop: the chord on top is dropped or split at its farthest point.
  lemma Turn(points: seq<Point>, tol2: real, keep: seq<bool>, rest: seq<(int, int)>, lo: int, hi: int)
    requires Spans(points, rest) && Span(points, lo, hi)
    requires Invariant(points, tol2, keep, rest + [(lo, hi)])
    ensures Work(points, rest) < Work(points, rest + [(lo, hi)])
    ensures var (dmax, idx) := Farthest(points, lo, hi, hi);
            if idx != -1 && dmax > tol2 then
              && Invariant(points, tol2, keep[idx := true], rest + [(lo, idx)] + [(idx, hi)])
              && Work(points, rest + [(lo, idx)] + [(idx, hi)]) < Work(points, rest + [(lo, hi)])
            else Invariant(points, tol2, keep, rest)
  {
    hide PerpDist2, Gap2, Pending, Work;
    var (dmax, idx) := Farthest(points, lo, hi, hi);
    Push(points, tol2, rest, lo, hi);
    if idx != -1 && dmax > tol2 {
      Push(points, tol2, rest, lo, idx);
      Push(points, tol2, rest + [(lo, idx)], idx, hi);
      SplitSets(keep, Pending(points, tol2, rest), Kept(points, tol2, lo, idx), Kept(points, tol2, idx, hi), idx,
                Result(points, tol2));
    }
  }

  /** The inner scan over the points of one chord. */
  method FindFarthest(points: seq<Point>, lo: int, hi: int) returns (dmax: real, idx: int)
    requires Span(points, lo, hi)
    ensures (dmax, idx) == Farthest(points, lo, hi, hi)
  {
    dmax, idx := 0.0, -1;
    for i := lo + 1 to hi
      invariant (dmax, idx) == Farthest(points, lo, hi, i)
    {
      var d := PerpDist2(points[i], points[lo], points[hi]);
      if d > dmax {
        dmax, idx := d, i;
      }
    }
  }

  // What a caller gets: both end points stay, and every dropped point is within
  // the tolerance of the simplified line.
  lemma {:induction false} SimplifiedWithinTolerance(points: seq<Point>, tol: real, keep: seq<bool>, i: nat)
      returns (l: int, h: int, s: real)
    requires |keep| == |points| >= 3 && tol > 0.0 && Flagged(keep) == Result(points, Square(tol))
    requires i < |points| && !keep[i]
    ensures keep[0] && keep[|points| - 1]
    ensures Around(Flagged(keep), l, i, h) && 0 <= l && h < |points| && 0.0 <= s <= 1.0
    ensures SqDist(points[i], At(points[l], points[h], s)) <= Square(tol)
  {
    assert 0 in Flagged(keep) && |points| - 1 in Flagged(keep) && i !in Flagged(keep);
    Product(tol, tol);
    l, h := DroppedIsNear(points, Square(tol), 0, |points| - 1, i);
    s := PerpDistAttained(points[i], points[l], points[h]);
  }

  // ---- the simplified list itself

  // The places of the flags, in order.
  function Places(keep: seq<bool>): seq<int> {
    if keep == [] then []
    else
      var n := |keep| - 1;
      Places(keep[..n]) + (if keep[n] then [n] else [])
  }

  lemma {:induction false} PlacesAre(keep: seq<bool>)
    ensures forall k :: 0 <= k < |Places(keep)| ==> 0 <= Places(keep)[k] < |keep| && keep[Places(keep)[k]]
    ensures forall k, l :: 0 <= k < l < |Places(keep)| ==> Places(keep)[k] < Places(keep)[l]
    ensures forall i :: 0 <= i < |keep| && keep[i] ==> i in Places(keep)
  {
    hide Places;
    PlacesNext(keep);
    if keep != [] {
      var n := |keep| - 1;
      PlacesAre(keep[..n]);
      var at := Places(keep[..n]);
      if keep[n] { assert (at + [n])[|at|] == n; }
      forall i | 0 <= i < n && keep[i] ensures i in Places(keep) { assert keep[..n][i] && i in at; }
    }
  }

  lemma PlacesNext(keep: seq<bool>)
    ensures keep == [] ==> Places(keep) == []
    ensures var n := |keep| - 1;
            keep != [] ==> Places(keep) == if keep[n] then Places(keep[..n]) + [n] else Places(keep[..n])
  {}

  lemma {:induction false} SelectIs(points: seq<Point>, keep: seq<bool>)
    requires |points| == |keep|
    ensures |Select(points, keep)| == |Places(keep)|
    ensures forall k :: 0 <= k < |Places(keep)| ==>
              0 <= Places(keep)[k] < |points| && Select(points, keep)[k] == points[Places(keep)[k]]
  {
    if keep != [] { SelectIs(points[..|points| - 1], keep[..|keep| - 1]); }
  }

  // out is points at ascending places, the first and the last among them.
  predicate Thinned(points: seq<Point>, out: seq<Point>, idx: seq<int>) {
    && |idx| == |out| >= 2 && idx[0] == 0 && idx[|idx| - 1] == |points| - 1
    && (forall k, l :: 0 <= k < l < |idx| ==> idx[k] < idx[l])
    && forall k :: 0 <= k < |idx| ==> 0 <= idx[k] < |points| && out[k] == points[idx[k]]
  }

  // Some point of the segment ab is within tol of p.
  ghost predicate Within(p: Point, a: Point, b: Point, tol: real) {
    exists s :: 0.0 <= s <= 1.0 && SqDist(p, At(a, b, s)) <= tol * tol
  }

  // Every point between two consecutive ones of out is within tol of their segment.
  ghost predicate NearLine(points: seq<Point>, out: seq<Point>, idx: seq<int>, tol: real)
    requires Thinned(points, out, idx)
  {
    forall k, i :: 0 <= k < |out| - 1 && idx[k] < i < idx[k + 1] ==> Within(points[i], out[k], out[k + 1], tol)
  }

  // Every inner point of out is out of tol of the segment of two others around it.
  ghost predicate NoneSpare(out: seq<Point>, tol: real) {
    forall k :: 0 < k < |out| - 1 ==> Needed(out, k, tol)
  }

  ghost predicate Needed(out: seq<Point>, k: int, tol: real)
    requires 0 < k < |out| - 1
  {
    exists l, h :: 0 <= l < k < h < |out| && !Within(out[k], out[l], out[h], tol)
  }

  // What is left of a list: its two ends and what the tolerance needs.
  ghost predicate IsSimplified(points: seq<Point>, out: seq<Point>, tol: real) {
    exists idx :: Thinned(points, out, idx) && NearLine(points, out, idx, tol) && NoneSpare(out, tol)
  }

  lemma PlacesThin(points: seq<Point>, keep: seq<bool>)
    requires |keep| == |points| >= 3 && keep[0] && keep[|points| - 1]
    ensures Thinned(points, Select(points, keep), Places(keep))
  {
    PlacesAre(keep);
    SelectIs(points, keep);
    var idx := Places(keep);
    var f :| 0 <= f < |idx| && idx[f] == 0;
    var e :| 0 <= e < |idx| && idx[e] == |points| - 1;
    assert f == 0 && e == |idx| - 1;
  }

  lemma GapIsNear(points: seq<Point>, tol: real, keep: seq<bool>, k: int, i: int)
    requires |keep| == |points| >= 3 && tol > 0.0 && Flagged(keep) == Result(points, Square(tol))
    requires 0 <= k < |Places(keep)| - 1 && Places(keep)[k] < i < Places(keep)[k + 1] < |points| && 0 <= Places(keep)[k]
    ensures Within(points[i], points[Places(keep)[k]], points[Places(keep)[k + 1]], tol)
  {
    hide Places, PerpDist2, SqDist, At, Result;
    PlacesAre(keep);
    var idx := Places(keep);
    if keep[i] {
      var j :| 0 <= j < |idx| && idx[j] == i;
      assert false;
    }
    var l, h, s := SimplifiedWithinTolerance(points, tol, keep, i);
    assert keep[l] && keep[h];
    var a :| 0 <= a < |idx| && idx[a] == l;
    var b :| 0 <= b < |idx| && idx[b] == h;
    assert idx[k] in Flagged(keep) && idx[k + 1] in Flagged(keep);
    assert a <= k && k + 1 <= b;
    assert l == idx[k] && h == idx[k + 1];
  }

  lemma FarIsNotWithin(p: Point, a: Point, b: Point, tol: real)
    requires PerpDist2(p, a, b) > Square(tol)
    ensures !Within(p, a, b, tol)
  {
    hide PerpDist2;
    forall s | 0.0 <= s <= 1.0 ensures SqDist(p, At(a, b, s)) > tol * tol { PerpDistIsLeast(p, a, b, s); }
  }

  lemma PlaceIsNeeded(points: seq<Point>, tol: real, keep: seq<bool>, k: int)
    requires |keep| == |points| >= 3 && tol > 0.0 && Flagged(keep) == Result(points, Square(tol))
    requires |Select(points, keep)| == |Places(keep)| && 0 < k < |Places(keep)| - 1
    ensures Needed(Select(points, keep), k, tol)
  {
    hide Places, Select, PerpDist2, At, SqDist, Square;
    PlacesAre(keep);
    SelectIs(points, keep);
    var idx, out := Places(keep), Select(points, keep);
    assert idx[0] < idx[k] < idx[|idx| - 1];
    assert idx[k] in Flagged(keep) && idx[k] in Kept(points, Square(tol), 0, |points| - 1);
    var l, h := KeptIsFar(points, Square(tol), 0, |points| - 1, idx[k]);
    assert l in Flagged(keep) && h in Flagged(keep);
    var a :| 0 <= a < |idx| && idx[a] == l;
    var b :| 0 <= b < |idx| && idx[b] == h;
    assert a < k < b;
    FarIsNotWithin(out[k], out[a], out[b], tol);
  }

  lemma SelectIsSimplified(points: seq<Point>, tol: real, keep: seq<bool>)
    requires |keep| == |points| >= 3 && tol > 0.0 && Flagged(keep) == Result(points, Square(tol))
    ensures IsSimplified(points, Select(points, keep), tol)
  {
    assert 0 in Flagged(keep) && |points| - 1 in Flagged(keep);
    PlacesThin(points, keep);
    var idx, out := Places(keep), Select(points, keep);
    forall k, i | 0 <= k < |out| - 1 && idx[k] < i < idx[k + 1] ensures Within(points[i], out[k], out[k + 1], tol) {
      GapIsNear(points, tol, keep, k, i);
    }
    forall k | 0 < k < |out| - 1 ensures Needed(out, k, tol) { PlaceIsNeeded(points, tol, keep, k); }
    assert NearLine(points, out, idx, tol) && NoneSpare(out, tol);
  }

  /** The stack loop keeps exactly the indices of the recursive definition: the ends,
      and in between what the tolerance needs. */
  method Simplify(points: seq<Point>, tol: real) returns (out: seq<Point>)
    ensures |points| < 3 || tol <= 0.0 ==> out == points
    ensures |points| >= 3 && tol > 0.0 ==> IsSimplified(points, out, tol)
    ensures |points| >= 3 && tol > 0.0 ==>
              exists keep :: |keep| == |points| && Flagged(keep) == Result(points, Square(tol)) && out == Select(points, keep)
  {
    if |points| < 3 || tol <= 0.0 {
      return points;
    }
    ghost var tol2 := Square(tol);
    var keep := new bool[|points|](_ => false);
    keep[0] := true;
    keep[|points| - 1] := true;
    var stack := [(0, |points| - 1)];
    Start(points, tol2, keep[..]);
    while stack != []
      invariant Invariant(points, tol2, keep[..], stack)
      decreases Work(points, stack)
    {
      var n := |stack| - 1;
      var (lo, hi) := stack[n];
      assert stack == stack[..n] + [(lo, hi)];
      stack := stack[..n];
      Turn(points, tol2, keep[..], stack, lo, hi);
      var dmax, idx := FindFarthest(points, lo, hi);
      if idx != -1 && dmax > Square(tol) {
        ghost var flags := keep[..];
        keep[idx] := true;
        assert keep[..] == flags[idx := true];
        stack := stack + [(lo, idx)] + [(idx, hi)];
      }
    }
    SelectIsSimplified(points, tol, keep[..]);
    out := Select(points, keep[..]);
  }
}
