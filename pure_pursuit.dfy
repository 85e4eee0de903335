/**
 * `PurePursuit`: the earlier lookahead tracker. Every segment of the path is
 * intersected with the circle of the given radius around the agent; the last
 * segment with an intersection inside its open ranges sets the lookahead
 * point, and the last waypoint wins when it is already within the radius.
 */
module PurePursuit {
  import opened Geometry
  import opened Wrappers
  import opened CircleLine
  import BeeNode
  import ScanFold

  /**
   * What one segment contributes. `Skipped`: the discriminant is negative or
   * the two end vectors are equal (the `continue`). `Degenerate`: the squared
   * length `d·d` is zero, so the division by it makes both candidates
   * non-finite in IEEE arithmetic and both range tests fail. Otherwise the
   * candidates and their two validity flags.
   */
  datatype Segment =
    | Skipped
    | Degenerate
    | Found(c: Candidates, valid1: bool, valid2: bool)

  /** The discriminant `r·r·d·d − D·D`, with `d` the square root the caller computed. */
  function LookaheadDiscriminant(p1: Vector2D, p2: Vector2D, radius: real, sqrt: real -> real): real
  {
    var d := sqrt(SegmentSquaredLength(p1, p2));
    radius * radius * d * d - Determinant(p1, p2) * Determinant(p1, p2)
  }

  /** The analysis of the segment with end vectors `p1`, `p2` relative to the agent. */
  function SegmentOf(p1: Vector2D, p2: Vector2D, radius: real, sqrt: real -> real): (s: Segment)
    ensures s.Skipped? <==> LookaheadDiscriminant(p1, p2, radius, sqrt) < 0.0 || p1 == p2
  {
    var discriminant := LookaheadDiscriminant(p1, p2, radius, sqrt);
    if discriminant < 0.0 || p1 == p2 then Skipped
    else
      var d := sqrt(SegmentSquaredLength(p1, p2));
      Classify(p1, p2, Square(d), sqrt(discriminant))
  }

  /** The candidates over the denominator `dd = d·d` and the root of the discriminant. */
  function Classify(p1: Vector2D, p2: Vector2D, dd: real, root: real): Segment
  {
    if dd == 0.0 then Degenerate
    else
      var c := CandidatePoints(p1, p2, root, dd);
      Found(c, Within(c.x1, c.y1, p1, p2), Within(c.x2, c.y2, p1, p2))
  }

  /** The end vectors of segment `i`, relative to the agent at `pos`. */
  function SegmentAt(path: seq<Position>, i: nat, space: Space, pos: Position, radius: real, sqrt: real -> real): Segment
    requires i + 1 < |path|
  {
    SegmentOf(space.shortestVector(pos, path[i]), space.shortestVector(pos, path[i + 1]), radius, sqrt)
  }

  /** The second candidate replaces the lookahead after the first slot when that is null or when the second is closer to `p2` in x or in y. */
  predicate PrefersSecond(c: Candidates, p2: Vector2D, afterFirst: Option<Position>)
  {
    afterFirst.None? || AbsReal(c.x1 - p2.x) > AbsReal(c.x2 - p2.x) || AbsReal(c.y1 - p2.y) > AbsReal(c.y2 - p2.y)
  }

  /** One iteration of the segment loop of `getLookaheadPoint`, from the lookahead so far. */
  function Step(lookahead: Option<Position>, path: seq<Position>, i: nat, space: Space, pos: Position, radius: real, sqrt: real -> real): Option<Position>
    requires i + 1 < |path|
  {
    SegmentStep(lookahead, space.shortestVector(pos, path[i]), space.shortestVector(pos, path[i + 1]), pos, radius, sqrt)
  }

  /** The loop body for the segment with end vectors `p1`, `p2`. */
  function SegmentStep(lookahead: Option<Position>, p1: Vector2D, p2: Vector2D, pos: Position, radius: real, sqrt: real -> real): Option<Position>
  {
    match SegmentOf(p1, p2, radius, sqrt)
    case Skipped => lookahead
    case Degenerate => lookahead
    case Found(c, valid1, valid2) =>
      var cleared := if valid1 || valid2 then None else lookahead;
      var afterFirst := if valid1 then Some(Absolute(Position(c.x1, c.y1), pos)) else cleared;
      if valid2 && PrefersSecond(c, p2, afterFirst)
      then Some(Absolute(Position(c.x2, c.y2), pos))
      else afterFirst
  }

  /** The lookahead after the first `k` segments. */
  function Scan(path: seq<Position>, k: nat, space: Space, pos: Position, radius: real, sqrt: real -> real): Option<Position>
    requires k == 0 || k < |path|
  {
    if k == 0 then None else Step(Scan(path, k - 1, space, pos, radius, sqrt), path, k - 1, space, pos, radius, sqrt)
  }

  /** Segment `i` has at least one valid intersection. */
  predicate Valid(path: seq<Position>, i: nat, space: Space, pos: Position, radius: real, sqrt: real -> real)
    requires i + 1 < |path|
  {
    var s := SegmentAt(path, i, space, pos, radius, sqrt);
    s.Found? && (s.valid1 || s.valid2)
  }

  /** The lookahead segment `i` sets on its own, whatever came before. */
  function Pick(path: seq<Position>, i: nat, space: Space, pos: Position, radius: real, sqrt: real -> real): Option<Position>
    requires i + 1 < |path|
  {
    Step(None, path, i, space, pos, radius, sqrt)
  }

  /**
   * What `getLookaheadPoint` returns: the last waypoint when it is within
   * `radius` by plain Euclidean distance, otherwise the lookahead of the
   * segment scan (`None` for null), put back into the arena by
   * `toroidalWrap`.
   */
  function LookaheadPoint(path: seq<Position>, space: Space, pos: Position, radius: real, sqrt: real -> real): Option<Position>
  {
    WithLastPoint(path, pos, radius, sqrt, WrapIfPresent(space, if |path| == 0 then None else Scan(path, |path| - 1, space, pos, radius, sqrt)))
  }

  /** The special case for the last waypoint, applied to the scan's `lookahead`. */
  function WithLastPoint(path: seq<Position>, pos: Position, radius: real, sqrt: real -> real, lookahead: Option<Position>): Option<Position>
  {
    if |path| > 0 && Distance(pos, path[|path| - 1], sqrt) <= radius then Some(path[|path| - 1])
    else lookahead
  }

  class PurePursuit {
    var path: seq<Position>

    constructor()
      ensures path == []
    {
      path := [];
    }

    /** `setPath`: the stored path becomes exactly the positions of `newPath`, in order. */
    method SetPath(newPath: seq<BeeNode.BeeNode>)
      modifies this
      ensures |path| == |newPath|
      ensures forall i :: 0 <= i < |newPath| ==> path[i] == newPath[i].position
    {
      path := [];
      for i := 0 to |newPath|
        invariant |path| == i
        invariant forall j :: 0 <= j < i ==> path[j] == newPath[j].position
      {
        path := path + [newPath[i].GetPosition()];
      }
    }

    /** `getLookaheadPoint`. */
    method GetLookaheadPoint(space: Space, pos: Position, radius: real, sqrt: real -> real) returns (r: Option<Position>)
      ensures r == LookaheadPoint(path, space, pos, radius, sqrt)
    {
      var waypoints := path;
      var lookahead := ScanSegments(waypoints, space, pos, radius, sqrt);
      if |waypoints| > 0 {
        var lastPoint := waypoints[|waypoints| - 1];
        if Distance(pos, lastPoint, sqrt) <= radius {
          return Some(Position(lastPoint.x, lastPoint.y));
        }
      }
      return WrapIfPresent(space, lookahead);
    }
  }

  /** The segment loop of `getLookaheadPoint`: the lookahead after every segment of `waypoints`. */
  method ScanSegments(waypoints: seq<Position>, space: Space, pos: Position, radius: real, sqrt: real -> real) returns (lookahead: Option<Position>)
    ensures lookahead == if |waypoints| == 0 then None else Scan(waypoints, |waypoints| - 1, space, pos, radius, sqrt)
  {
    lookahead := None;
    var i := 0;
    while i + 1 < |waypoints|
      invariant 0 <= i && (i == 0 || i < |waypoints|)
      invariant lookahead == Scan(waypoints, i, space, pos, radius, sqrt)
    {
      var p1 := space.shortestVector(pos, waypoints[i]);
      var p2 := space.shortestVector(pos, waypoints[i + 1]);
      lookahead := ProcessSegment(lookahead, p1, p2, pos, radius, sqrt);
      i := i + 1;
    }
    assert |waypoints| == 0 || i == |waypoints| - 1;
  }

  /** The body of the segment loop of `getLookaheadPoint` for end vectors `p1`, `p2`. */
  method ProcessSegment(lookahead0: Option<Position>, p1: Vector2D, p2: Vector2D, pos: Position, radius: real, sqrt: real -> real)
    returns (lookahead: Option<Position>)
    ensures lookahead == SegmentStep(lookahead0, p1, p2, pos, radius, sqrt)
  {
    lookahead := lookahead0;
    var dx := p2.x - p1.x;
    var dy := p2.y - p1.y;
    var d := sqrt(dx * dx + dy * dy);
    var D := p1.x * p2.y - p2.x * p1.y;
    var discriminant := radius * radius * d * d - D * D;
    assert dx * dx + dy * dy == SegmentSquaredLength(p1, p2) && D == Determinant(p1, p2);
    assert discriminant == LookaheadDiscriminant(p1, p2, radius, sqrt);
    var denominator := Square(d);
    if !(discriminant < 0.0 || p1 == p2) && denominator != 0.0 {
      var root := sqrt(discriminant);
      var c := ClosedForm(D, dx, dy, root, denominator);
      assert SegmentOf(p1, p2, radius, sqrt) == Classify(p1, p2, denominator, root)
                                             == Found(c, Within(c.x1, c.y1, p1, p2), Within(c.x2, c.y2, p1, p2));
      var x1, y1, x2, y2 := c.x1, c.y1, c.x2, c.y2;
      var validIntersection1 := Within(x1, y1, p1, p2);
      var validIntersection2 := Within(x2, y2, p1, p2);
      if validIntersection1 || validIntersection2 {
        lookahead := None;
      }
      if validIntersection1 {
        lookahead := Some(Position(x1 + pos.x, y1 + pos.y));
      }
      if validIntersection2 {
        if lookahead.None? || AbsReal(x1 - p2.x) > AbsReal(x2 - p2.x) || AbsReal(y1 - p2.y) > AbsReal(y2 - p2.y) {
          lookahead := Some(Position(x2 + pos.x, y2 + pos.y));
        }
      }
    } else {
      assert SegmentOf(p1, p2, radius, sqrt).Skipped? || SegmentOf(p1, p2, radius, sqrt).Degenerate?;
    }
  }

  /** An empty path gives no lookahead (null). */
  lemma EmptyPathNoLookahead(space: Space, pos: Position, radius: real, sqrt: real -> real)
    ensures LookaheadPoint([], space, pos, radius, sqrt) == None
  {
  }

  /**
   * With an exact square root and a non-negative radius, the last waypoint is
   * the lookahead exactly when its squared Euclidean distance is at most
   * `radius²`; otherwise the segment scan decides.
   */
  lemma LastWaypointWithinRadius(path: seq<Position>, space: Space, pos: Position, radius: real, sqrt: real -> real)
    requires |path| > 0 && 0.0 <= radius
    requires IsRoot(sqrt(SquaredDistance(pos, path[|path| - 1])), SquaredDistance(pos, path[|path| - 1]))
    ensures SquaredDistance(pos, path[|path| - 1]) <= radius * radius ==>
      LookaheadPoint(path, space, pos, radius, sqrt) == Some(path[|path| - 1])
    ensures SquaredDistance(pos, path[|path| - 1]) > radius * radius ==>
      LookaheadPoint(path, space, pos, radius, sqrt) == WrapIfPresent(space, Scan(path, |path| - 1, space, pos, radius, sqrt))
  {
    LastPointCheck(path, pos, radius, sqrt, WrapIfPresent(space, Scan(path, |path| - 1, space, pos, radius, sqrt)));
  }

  lemma LastPointCheck(path: seq<Position>, pos: Position, radius: real, sqrt: real -> real, lookahead: Option<Position>)
    requires |path| > 0 && 0.0 <= radius
    requires IsRoot(sqrt(SquaredDistance(pos, path[|path| - 1])), SquaredDistance(pos, path[|path| - 1]))
    ensures SquaredDistance(pos, path[|path| - 1]) <= radius * radius ==>
      WithLastPoint(path, pos, radius, sqrt, lookahead) == Some(path[|path| - 1])
    ensures SquaredDistance(pos, path[|path| - 1]) > radius * radius ==>
      WithLastPoint(path, pos, radius, sqrt, lookahead) == lookahead
  {
    RootOrder(sqrt(SquaredDistance(pos, path[|path| - 1])), radius);
  }

  /**
   * A segment with a valid intersection discards the lookahead it starts
   * from; a segment without one keeps it unchanged.
   */
  lemma StepOverrides(lookahead: Option<Position>, path: seq<Position>, i: nat, space: Space, pos: Position, radius: real, sqrt: real -> real)
    requires i + 1 < |path|
    ensures Valid(path, i, space, pos, radius, sqrt) ==>
      Step(lookahead, path, i, space, pos, radius, sqrt) == Pick(path, i, space, pos, radius, sqrt)
            && Pick(path, i, space, pos, radius, sqrt).Some?
    ensures !Valid(path, i, space, pos, radius, sqrt) ==>
      Step(lookahead, path, i, space, pos, radius, sqrt) == lookahead
  {
  }

  /**
   * Within one segment: the second candidate is chosen when it alone is
   * valid, or when both are and the second is strictly closer to the
   * segment's end in x or in y; otherwise a valid first candidate is.
   */
  lemma PickChoice(path: seq<Position>, i: nat, space: Space, pos: Position, radius: real, sqrt: real -> real)
    requires i + 1 < |path|
    requires SegmentAt(path, i, space, pos, radius, sqrt).Found?
    ensures var s := SegmentAt(path, i, space, pos, radius, sqrt);
      var p2 := space.shortestVector(pos, path[i + 1]);
      var first := Some(Absolute(Position(s.c.x1, s.c.y1), pos));
      var second := Some(Absolute(Position(s.c.x2, s.c.y2), pos));
      var closer := AbsReal(s.c.x1 - p2.x) > AbsReal(s.c.x2 - p2.x) || AbsReal(s.c.y1 - p2.y) > AbsReal(s.c.y2 - p2.y);
      var r := Pick(path, i, space, pos, radius, sqrt);
      && (s.valid2 && (!s.valid1 || closer) ==> r == second)
      && (s.valid1 && !(s.valid2 && closer) ==> r == first)
      && (!s.valid1 && !s.valid2 ==> r == None)
  {
  }

  /**
   * The scan's lookahead is null exactly when no segment has a valid
   * intersection; otherwise it is the pick of the last segment that has one.
   */
  lemma ScanLastValid(path: seq<Position>, k: nat, space: Space, pos: Position, radius: real, sqrt: real -> real)
    requires k == 0 || k < |path|
    ensures Scan(path, k, space, pos, radius, sqrt).None? <==>
      forall j :: 0 <= j < k ==> !Valid(path, j, space, pos, radius, sqrt)
    ensures Scan(path, k, space, pos, radius, sqrt).Some? ==>
      exists j :: 0 <= j < k && Valid(path, j, space, pos, radius, sqrt)
        && Scan(path, k, space, pos, radius, sqrt) == Pick(path, j, space, pos, radius, sqrt)
        && forall m :: j < m < k ==> !Valid(path, m, space, pos, radius, sqrt)
  {
    var scan := (i: nat) => if i == 0 || i < |path| then Scan(path, i, space, pos, radius, sqrt) else None;
    var valid := (i: nat) => i + 1 < |path| && Valid(path, i, space, pos, radius, sqrt);
    var pick := (i: nat) => if i + 1 < |path| then Pick(path, i, space, pos, radius, sqrt) else None;
    forall i: nat | i < k
      ensures valid(i) ==> scan(i + 1) == pick(i) && pick(i).Some?
      ensures !valid(i) ==> scan(i + 1) == scan(i)
    {
      StepOverrides(Scan(path, i, space, pos, radius, sqrt), path, i, space, pos, radius, sqrt);
    }
    ScanFold.LastValidPick(scan, valid, pick, k);
    var last := Scan(path, k, space, pos, radius, sqrt);
    assert scan(k) == last;
    if last.Some? {
      var j: nat :| j < k && ScanFold.IsLastValid(valid, pick, scan(k), j, k);
      assert Valid(path, j, space, pos, radius, sqrt) && last == Pick(path, j, space, pos, radius, sqrt);
      forall m | j < m < k
        ensures !Valid(path, m, space, pos, radius, sqrt)
      {
        assert !valid(m);
      }
    }
  }

  /**
   * When `sqrt` is exact at the squared length and at the discriminant, the
   * candidates of a segment lie on the circle of radius `radius` around the
   * agent and on the segment's line.
   */
  lemma FoundOnCircle(p1: Vector2D, p2: Vector2D, radius: real, sqrt: real -> real)
    requires IsRoot(sqrt(SegmentSquaredLength(p1, p2)), SegmentSquaredLength(p1, p2))
    requires LookaheadDiscriminant(p1, p2, radius, sqrt) >= 0.0 ==>
      IsRoot(sqrt(LookaheadDiscriminant(p1, p2, radius, sqrt)), LookaheadDiscriminant(p1, p2, radius, sqrt))
    ensures CandidatesOnCircle(SegmentOf(p1, p2, radius, sqrt), radius, p1, p2)
  {
    var n := SegmentSquaredLength(p1, p2);
    var discriminant := LookaheadDiscriminant(p1, p2, radius, sqrt);
    if discriminant >= 0.0 && p1 != p2 {
      ClassifyExact(p1, p2, radius, sqrt(n), n, discriminant, sqrt(discriminant));
    }
  }

  lemma ClassifyExact(p1: Vector2D, p2: Vector2D, radius: real, d: real, n: real, discriminant: real, root: real)
    requires p1 != p2 && n == SegmentSquaredLength(p1, p2) && IsRoot(d, n)
    requires discriminant == radius * radius * d * d - Determinant(p1, p2) * Determinant(p1, p2)
    requires IsRoot(root, discriminant)
    ensures CandidatesOnCircle(Classify(p1, p2, Square(d), root), radius, p1, p2)
  {
    assert Square(d) == n;
    assert radius * radius * d * d == (radius * radius) * (d * d);
    CandidatesOnCircleAndLine(p1, p2, radius, root);
  }

  /** Both candidates of a segment that has them lie on the circle and on the line. */
  predicate CandidatesOnCircle(s: Segment, radius: real, p1: Vector2D, p2: Vector2D)
  {
    s.Found? ==> OnCircleAndLine(s.c.x1, s.c.y1, radius, p1, p2) && OnCircleAndLine(s.c.x2, s.c.y2, radius, p1, p2)
  }

  /** With an exact square root every lookahead the scan has chosen is at distance `radius` from the agent. */
  lemma {:induction false} ScanOnCircle(path: seq<Position>, k: nat, space: Space, pos: Position, radius: real, sqrt: real -> real)
    requires (k == 0 || k < |path|) && ExactSqrt(sqrt)
    ensures var l := Scan(path, k, space, pos, radius, sqrt); l.Some? ==> AtRadius(l.value, pos, radius)
  {
    if k > 0 {
      ScanOnCircle(path, k - 1, space, pos, radius, sqrt);
      var p1 := space.shortestVector(pos, path[k - 1]);
      var p2 := space.shortestVector(pos, path[k]);
      ExactAtSegment(p1, p2, radius, sqrt);
      SegmentStepOnCircle(Scan(path, k - 1, space, pos, radius, sqrt), p1, p2, pos, radius, sqrt);
    }
  }

  /** An exact square root is exact at the squared length and at a non-negative discriminant. */
  lemma ExactAtSegment(p1: Vector2D, p2: Vector2D, radius: real, sqrt: real -> real)
    requires ExactSqrt(sqrt)
    ensures IsRoot(sqrt(SegmentSquaredLength(p1, p2)), SegmentSquaredLength(p1, p2))
    ensures LookaheadDiscriminant(p1, p2, radius, sqrt) >= 0.0 ==>
      IsRoot(sqrt(LookaheadDiscriminant(p1, p2, radius, sqrt)), LookaheadDiscriminant(p1, p2, radius, sqrt))
  {
  }

  /** One segment keeps the property that the lookahead, if any, is at distance `radius`. */
  lemma SegmentStepOnCircle(lookahead: Option<Position>, p1: Vector2D, p2: Vector2D, pos: Position, radius: real, sqrt: real -> real)
    requires IsRoot(sqrt(SegmentSquaredLength(p1, p2)), SegmentSquaredLength(p1, p2))
    requires LookaheadDiscriminant(p1, p2, radius, sqrt) >= 0.0 ==>
      IsRoot(sqrt(LookaheadDiscriminant(p1, p2, radius, sqrt)), LookaheadDiscriminant(p1, p2, radius, sqrt))
    requires lookahead.Some? ==> AtRadius(lookahead.value, pos, radius)
    ensures var l := SegmentStep(lookahead, p1, p2, pos, radius, sqrt); l.Some? ==> AtRadius(l.value, pos, radius)
  {
    FoundOnCircle(p1, p2, radius, sqrt);
    var s := SegmentOf(p1, p2, radius, sqrt);
    if s.Found? {
      AbsoluteAtRadius(Position(s.c.x1, s.c.y1), pos, radius);
      AbsoluteAtRadius(Position(s.c.x2, s.c.y2), pos, radius);
    }
  }
}
