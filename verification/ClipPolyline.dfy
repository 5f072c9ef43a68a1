// The polyline clip of the map builder (tools/mapdata/build_mapdata.py).
module ClipPolyline {
  import opened Geometry
  import opened Options
  import opened Reals

  // The segments joining consecutive points.
  function EdgesOf(line: seq<Point>): (edges: seq<Segment>) {
    if |line| < 2 then [] else EdgesOf(line[..|line| - 1]) + [Segment(line[|line| - 2], line[|line| - 1])]
  }

  function AllEdges(runs: seq<seq<Point>>): seq<Segment> {
    if runs == [] then [] else AllEdges(runs[..|runs| - 1]) + EdgesOf(runs[|runs| - 1])
  }

  // The visible parts, in order, with the invisible edges dropped.
  function Parts(clips: seq<Option<Segment>>): seq<Segment> {
    if clips == [] then []
    else
      var rest := Parts(clips[..|clips| - 1]);
      match clips[|clips| - 1]
      case None => rest
      case Some(s) => rest + [s]
  }

  ghost predicate OnEdges(edges: seq<Segment>, q: Point) {
    exists k :: 0 <= k < |edges| && OnSegment(edges[k].a, edges[k].b, q)
  }

  ghost predicate OnPolyline(points: seq<Point>, q: Point) {
    OnEdges(EdgesOf(points), q)
  }

  // clips answers the clip of every edge of points.
  ghost predicate AreClips(points: seq<Point>, box: Box, clips: seq<Option<Segment>>) {
    |clips| == (if |points| == 0 then 0 else |points| - 1) && ClipsUpTo(points, box, clips)
  }

  ghost predicate ClipsUpTo(points: seq<Point>, box: Box, clips: seq<Option<Segment>>) {
    (clips == [] || |clips| < |points|) && forall k :: 0 <= k < |clips| ==> ClipOf(points, box, clips, k)
  }

  ghost predicate ClipOf(points: seq<Point>, box: Box, clips: seq<Option<Segment>>, k: nat)
    requires k < |clips| < |points|
  {
    IsClip(points[k], points[k + 1], box, clips[k])
  }

  lemma PushClip(points: seq<Point>, box: Box, clips: seq<Option<Segment>>, r: Option<Segment>)
    requires |clips| + 1 < |points| && ClipsUpTo(points, box, clips)
    requires IsClip(points[|clips|], points[|clips| + 1], box, r)
    ensures ClipsUpTo(points, box, clips + [r]) && Parts(clips + [r]) == Parts(clips) + (if r.Some? then [r.value] else [])
  {
    var all := clips + [r];
    assert all[..|clips|] == clips;
    forall k | 0 <= k < |all| ensures ClipOf(points, box, all, k) {
      if k < |clips| { assert ClipOf(points, box, clips, k); }
    }
  }

  lemma AtEnds(a: Point, b: Point)
    ensures At(a, b, 0.0) == a && At(a, b, 1.0) == b
  {
    LerpEnds(a.x, b.x, 0.0);
    LerpEnds(a.y, b.y, 0.0);
  }

  // An edge inside the box is its own clip.
  lemma ClipInside(a: Point, b: Point, box: Box, r: Option<Segment>)
    requires InBox(box, a) && InBox(box, b) && IsClip(a, b, box, r)
    ensures r == Some(Segment(a, b))
  {
    AtEnds(a, b);
    assert InBox(box, At(a, b, 0.0)) && InBox(box, At(a, b, 1.0));
  }

  lemma PartAt(a: Point, b: Point, u0: real, u1: real, s: real) returns (t: real)
    requires u0 <= u1 && 0.0 <= s <= 1.0
    ensures u0 <= t <= u1
    ensures At(At(a, b, u0), At(a, b, u1), s) == At(a, b, t)
  {
    Between(u0, u1, u0, u1, s);
    SubSegment(a, b, u0, u1, s);
    t := Lerp(u0, u1, s);
  }

  lemma PartInside(a: Point, b: Point, box: Box, u0: real, u1: real, q: Point)
    requires Visible(a, b, box, u0, u1) && OnSegment(At(a, b, u0), At(a, b, u1), q)
    ensures OnSegment(a, b, q) && InBox(box, q)
  {
    var s :| 0.0 <= s <= 1.0 && q == At(At(a, b, u0), At(a, b, u1), s);
    var t := PartAt(a, b, u0, u1, s);
    assert q == At(a, b, t);
  }

  lemma InsideOnPart(a: Point, b: Point, box: Box, u0: real, u1: real, t: real)
    requires 0.0 <= u0 <= t <= u1 <= 1.0
    ensures OnSegment(At(a, b, u0), At(a, b, u1), At(a, b, t))
  {
    if u0 == u1 {
      AtEnds(At(a, b, u0), At(a, b, u1));
      assert At(a, b, t) == At(At(a, b, u0), At(a, b, u1), 0.0);
    } else {
      var s := Ratio(u0, u1, t);
      RatioReaches(u0, u1, t);
      UnitQuotient(t - u0, u1 - u0);
      SubSegment(a, b, u0, u1, s);
    }
  }

  // A point of the clipped part is a point of the edge inside the box, and back.
  lemma ClipCovers(a: Point, b: Point, box: Box, r: Option<Segment>, q: Point)
    requires IsClip(a, b, box, r)
    ensures r.Some? && OnSegment(r.value.a, r.value.b, q) <==> OnSegment(a, b, q) && InBox(box, q)
  {
    if r.Some? {
      var u0, u1 :| Visible(a, b, box, u0, u1) && r.value == Segment(At(a, b, u0), At(a, b, u1));
      if OnSegment(r.value.a, r.value.b, q) {
        PartInside(a, b, box, u0, u1, q);
      }
      if OnSegment(a, b, q) && InBox(box, q) {
        var t :| 0.0 <= t <= 1.0 && q == At(a, b, t);
        InsideOnPart(a, b, box, u0, u1, t);
      }
    }
  }

  lemma {:induction false} SubSegment(a: Point, b: Point, u0: real, u1: real, s: real)
    ensures At(At(a, b, u0), At(a, b, u1), s) == At(a, b, Lerp(u0, u1, s))
  {
    LerpLerp(a.x, b.x, u0, u1, s);
    LerpLerp(a.y, b.y, u0, u1, s);
  }

  lemma EdgeAt(points: seq<Point>, n: nat)
    requires n + 2 <= |points|
    ensures EdgesOf(points[..n + 2]) == EdgesOf(points[..n + 1]) + [Segment(points[n], points[n + 1])]
  {
    assert points[..n + 2][..n + 1] == points[..n + 1];
  }

  // The visible parts cover exactly the points of the polyline inside the box.
  lemma {:induction false} PartsCover(points: seq<Point>, box: Box, clips: seq<Option<Segment>>, n: nat, q: Point)
    requires AreClips(points, box, clips) && n <= |clips| && points != []
    ensures OnEdges(Parts(clips[..n]), q) <==> OnPolyline(points[..n + 1], q) && InBox(box, q)
  {
    if n > 0 {
      PartsCover(points, box, clips, n - 1, q);
      assert clips[..n][..n - 1] == clips[..n - 1];
      assert ClipOf(points, box, clips, n - 1);
      ClipCovers(points[n - 1], points[n], box, clips[n - 1], q);
      EdgeAt(points, n - 1);
      LastEdge(EdgesOf(points[..n]), Segment(points[n - 1], points[n]), q);
      if clips[n - 1].Some? {
        LastEdge(Parts(clips[..n - 1]), clips[n - 1].value, q);
      }
    }
  }

  lemma LastEdge(edges: seq<Segment>, e: Segment, q: Point)
    ensures OnEdges(edges + [e], q) <==> OnEdges(edges, q) || OnSegment(e.a, e.b, q)
  {
    var all := edges + [e];
    assert forall k :: 0 <= k < |edges| ==> all[k] == edges[k];
    assert all[|edges|] == e;
    if OnEdges(edges, q) {
      var k :| 0 <= k < |edges| && OnSegment(edges[k].a, edges[k].b, q);
      assert OnSegment(all[k].a, all[k].b, q);
    }
  }

  lemma PushEdge(run: seq<Point>, p: Point)
    requires run != []
    ensures EdgesOf(run + [p]) == EdgesOf(run) + [Segment(run[|run| - 1], p)]
  {
    assert (run + [p])[..|run|] == run;
  }

  lemma PushRun(runs: seq<seq<Point>>, run: seq<Point>)
    ensures AllEdges(runs + [run]) == AllEdges(runs) + EdgesOf(run)
  {
    assert (runs + [run])[..|runs|] == runs;
  }

  // Runs of at least two points, as the last line of the clip keeps them.
  function Drawable(runs: seq<seq<Point>>): seq<seq<Point>> {
    if runs == [] then []
    else
      var rest := Drawable(runs[..|runs| - 1]);
      if |runs[|runs| - 1]| >= 2 then rest + [runs[|runs| - 1]] else rest
  }

  lemma {:induction false} AllDrawable(runs: seq<seq<Point>>)
    requires forall r :: r in runs ==> |r| >= 2
    ensures Drawable(runs) == runs
  {
    if runs != [] {
      AllDrawable(runs[..|runs| - 1]);
    }
  }

  lemma RunsCover(points: seq<Point>, box: Box, clips: seq<Option<Segment>>, runs: seq<seq<Point>>)
    requires AreClips(points, box, clips) && AllEdges(runs) == Parts(clips)
    ensures forall q :: OnEdges(AllEdges(runs), q) <==> OnPolyline(points, q) && InBox(box, q)
  {
    if points != [] {
      assert clips[..|clips|] == clips && points[..|clips| + 1] == points;
      forall q ensures OnEdges(AllEdges(runs), q) <==> OnPolyline(points, q) && InBox(box, q) {
        PartsCover(points, box, clips, |clips|, q);
      }
    }
  }

  // The runs closed so far and the open one.
  datatype Runs = Runs(done: seq<seq<Point>>, cur: seq<Point>) {
    function Edges(): seq<Segment> { AllEdges(done) + EdgesOf(cur) }

    ghost predicate Valid() { |cur| != 1 && forall r :: r in done ==> |r| >= 2 }

    function Close(): Runs { if cur == [] then this else Runs(done + [cur], []) }

    function Push(part: Option<Segment>): Runs {
      match part
      case None => Close()
      case Some(s) =>
        if cur != [] && cur[|cur| - 1] == s.a then Runs(done, cur + [s.b])
        else Runs(Close().done, [s.a, s.b])
    }
  }

  lemma NoEdges()
    ensures EdgesOf([]) == [] && forall p :: EdgesOf([p]) == []
  {}

  lemma PushPart(runs: Runs, part: Option<Segment>)
    requires runs.Valid()
    ensures runs.Push(part).Valid()
    ensures runs.Push(part).Edges() == runs.Edges() + (if part.Some? then [part.value] else [])
  {
    hide AllEdges, EdgesOf;
    NoEdges();
    if runs.cur != [] {
      PushRun(runs.done, runs.cur);
    }
    if part.Some? {
      PushEdge([part.value.a], part.value.b);
      assert [part.value.a] + [part.value.b] == [part.value.a, part.value.b];
      if runs.cur != [] { PushEdge(runs.cur, part.value.b); }
    }
  }

  lemma PushInside(runs: Runs, points: seq<Point>, i: nat, part: Option<Segment>)
    requires i < |points| - 1 && part == Some(Segment(points[i], points[i + 1]))
    requires runs == Runs([], if i == 0 then [] else points[..i + 1])
    ensures runs.Push(part) == Runs([], points[..i + 2])
  {
    assert points[..i + 2] == points[..i + 1] + [points[i + 1]];
  }

  // A run starts at a visible part with no visible part before it, or one that ended
  // elsewhere.
  predicate Starts(clips: seq<Option<Segment>>, k: nat)
    requires k < |clips|
  {
    clips[k].Some? && (k == 0 || clips[k - 1].None? || clips[k - 1].value.b != clips[k].value.a)
  }

  function Breaks(clips: seq<Option<Segment>>): nat {
    if clips == [] then 0 else Breaks(clips[..|clips| - 1]) + (if Starts(clips, |clips| - 1) then 1 else 0)
  }

  // The open run ends where the last edge leaves the box, or is closed.
  predicate Open(clips: seq<Option<Segment>>, cur: seq<Point>) {
    if clips == [] || clips[|clips| - 1].None? then cur == []
    else cur != [] && cur[|cur| - 1] == clips[|clips| - 1].value.b
  }

  // One run for every start.
  predicate Counted(clips: seq<Option<Segment>>, runs: Runs) {
    Open(clips, runs.cur) && |runs.done| + (if runs.cur == [] then 0 else 1) == Breaks(clips)
  }

  lemma CountPart(clips: seq<Option<Segment>>, runs: Runs, part: Option<Segment>)
    requires Counted(clips, runs)
    ensures Counted(clips + [part], runs.Push(part))
  {
    var all := clips + [part];
    assert all[..|clips|] == clips;
  }

  // What holds before edge i: the runs draw the visible parts of the edges
  // before it, and a polyline inside the box is still one unchanged run.
  ghost predicate Progress(points: seq<Point>, box: Box, clips: seq<Option<Segment>>, runs: Runs) {
    && ClipsUpTo(points, box, clips)
    && runs.Valid() && runs.Edges() == Parts(clips) && Counted(clips, runs)
    && (AllInBox(box, points) ==> runs == Runs([], if clips == [] then [] else points[..|clips| + 1]))
  }

  ghost predicate AllInBox(box: Box, points: seq<Point>) {
    forall k :: 0 <= k < |points| ==> InBox(box, points[k])
  }

  lemma ProgressStep(points: seq<Point>, box: Box, clips: seq<Option<Segment>>, runs: Runs, part: Option<Segment>)
    requires Progress(points, box, clips, runs) && |clips| + 1 < |points|
    requires IsClip(points[|clips|], points[|clips| + 1], box, part)
    ensures Progress(points, box, clips + [part], runs.Push(part))
  {
    PushClip(points, box, clips, part);
    PushPart(runs, part);
    CountPart(clips, runs, part);
    if AllInBox(box, points) {
      ClipInside(points[|clips|], points[|clips| + 1], box, part);
      PushInside(runs, points, |clips|, part);
    }
  }

  // What the clip promises.
  ghost predicate IsClippedPolyline(points: seq<Point>, box: Box, runs: seq<seq<Point>>) {
    && (forall r :: r in runs ==> |r| >= 2)
    && (exists clips :: AreClips(points, box, clips) && AllEdges(runs) == Parts(clips) && |runs| == Breaks(clips))
    && (forall q :: OnEdges(AllEdges(runs), q) <==> OnPolyline(points, q) && InBox(box, q))
    && (|points| >= 2 && AllInBox(box, points) ==> runs == [points])
  }

  lemma ProgressDone(points: seq<Point>, box: Box, clips: seq<Option<Segment>>, runs: Runs)
    requires Progress(points, box, clips, runs) && |points| <= |clips| + 1
    ensures IsClippedPolyline(points, box, Drawable(runs.Close().done))
  {
    if runs.cur != [] { PushRun(runs.done, runs.cur); }
    var all := runs.Close().done;
    AllDrawable(all);
    assert AreClips(points, box, clips) && AllEdges(all) == Parts(clips) && |all| == Breaks(clips);
    RunsCover(points, box, clips, all);
    if |points| >= 2 && AllInBox(box, points) { assert points[..|clips| + 1] == points; }
  }

  /** The runs together draw exactly the visible parts of the edges, in order;
      so they cover exactly the points of the polyline inside the box. A run goes on
      for as long as the parts join up. */
  method ClipPolyline(points: seq<Point>, box: Box) returns (runs: seq<seq<Point>>)
    ensures IsClippedPolyline(points, box, runs)
  {
    runs := [];
    var cur: seq<Point> := [];
    ghost var clips: seq<Option<Segment>> := [];
    var i := 0;
    while i < |points| - 1
      invariant |clips| == i
      invariant Progress(points, box, clips, Runs(runs, cur))
    {
      var part := ClipSegment(points[i], points[i + 1], box);
      ProgressStep(points, box, clips, Runs(runs, cur), part);
      ghost var next := Runs(runs, cur).Push(part);
      clips := clips + [part];
      if part.None? {
        if cur != [] {
          runs := runs + [cur];
          cur := [];
        }
      } else {
        if cur == [] {
          cur := [part.value.a];
        } else if cur[|cur| - 1] != part.value.a {
          runs := runs + [cur];
          cur := [part.value.a];
        }
        cur := cur + [part.value.b];
      }
      assert Runs(runs, cur) == next;
      i := i + 1;
    }
    ProgressDone(points, box, clips, Runs(runs, cur));
    if cur != [] {
      runs := runs + [cur];
    }
    runs := Drawable(runs);
  }
}
