/**
 * `BeePursuit`: pure-pursuit tracking of a waypoint path. Around the agent
 * a circle of the given radius is intersected with every segment of the path
 * (in coordinates relative to the agent, through the simulator's shortest
 * wrap-around displacement); the target is chosen among the intersections, or
 * is the last waypoint when that one is already inside the circle.
 */
module BeePursuit {
  import opened Geometry
  import opened Wrappers
  import opened CircleLine
  import BeeNode
  import ScanFold

  /** The two slots of `getCircleLineIntersections`' result array; `None` is a null slot. */
  datatype Intersections = Intersections(first: Option<Position>, second: Option<Position>)

  /** `r²·|d|² − D²`, the discriminant of the circle/line system. */
  function Discriminant(lineStart: Vector2D, lineEnd: Vector2D, radius: real): real
  {
    radius * radius * SegmentSquaredLength(lineStart, lineEnd)
    - Determinant(lineStart, lineEnd) * Determinant(lineStart, lineEnd)
  }

  /**
   * `getCircleLineIntersections`: `None` (a null array) for a zero-length
   * segment or a discriminant that is not positive; otherwise each slot holds
   * its candidate when that candidate lies within the segment's open ranges.
   */
  function CircleLineIntersections(lineStart: Vector2D, lineEnd: Vector2D, radius: real, sqrt: real -> real): (r: Option<Intersections>)
    ensures r.None? <==> lineStart == lineEnd || Discriminant(lineStart, lineEnd, radius) <= 0.0
  {
    if lineStart == lineEnd then None
    else
      var discriminant := Discriminant(lineStart, lineEnd, radius);
      if discriminant <= 0.0 then None
      else
        SegmentLengthPositive(lineStart, lineEnd);
        var c := CandidatePoints(lineStart, lineEnd, sqrt(discriminant), SegmentSquaredLength(lineStart, lineEnd));
        Some(Intersections(
          if Within(c.x1, c.y1, lineStart, lineEnd) then Some(Position(c.x1, c.y1)) else None,
          if Within(c.x2, c.y2, lineStart, lineEnd) then Some(Position(c.x2, c.y2)) else None))
  }

  /** `p` is at distance `radius` from the origin and on the segment's line, strictly within one of its open ranges. */
  predicate OnCircleWithin(p: Position, radius: real, lineStart: Vector2D, lineEnd: Vector2D)
  {
    OnCircleAndLine(p.x, p.y, radius, lineStart, lineEnd) && Within(p.x, p.y, lineStart, lineEnd)
  }

  /** With an exact square root, every point returned lies on the circle, on the segment's line and within its ranges. */
  lemma IntersectionsOnCircle(lineStart: Vector2D, lineEnd: Vector2D, radius: real, sqrt: real -> real)
    requires ExactSqrt(sqrt)
    ensures var r := CircleLineIntersections(lineStart, lineEnd, radius, sqrt);
      r.Some? ==>
        && (r.value.first.Some? ==> OnCircleWithin(r.value.first.value, radius, lineStart, lineEnd))
        && (r.value.second.Some? ==> OnCircleWithin(r.value.second.value, radius, lineStart, lineEnd))
  {
    if lineStart != lineEnd {
      var discriminant := Discriminant(lineStart, lineEnd, radius);
      if discriminant > 0.0 {
        var root := sqrt(discriminant);
        assert IsRoot(root, discriminant);
        CandidatesOnCircleAndLine(lineStart, lineEnd, radius, root);
        var c := CandidatePoints(lineStart, lineEnd, root, SegmentSquaredLength(lineStart, lineEnd));
        CandidateKept(c.x1, c.y1, radius, lineStart, lineEnd);
        CandidateKept(c.x2, c.y2, radius, lineStart, lineEnd);
      }
    }
  }

  lemma CandidateKept(x: real, y: real, radius: real, lineStart: Vector2D, lineEnd: Vector2D)
    requires OnCircleAndLine(x, y, radius, lineStart, lineEnd)
    ensures Within(x, y, lineStart, lineEnd) ==> OnCircleWithin(Position(x, y), radius, lineStart, lineEnd)
  {
  }

  /** The intersections of the circle with segment `i` of the path. */
  function SegmentIntersections(path: seq<Position>, i: nat, space: Space, pos: Position, radius: real, sqrt: real -> real): Option<Intersections>
    requires i + 1 < |path|
  {
    CircleLineIntersections(space.shortestVector(pos, path[i]), space.shortestVector(pos, path[i + 1]), radius, sqrt)
  }

  /** One iteration of the segment loop of `getDesiredPosition`, from the choice `desired` so far. */
  function Step(desired: Option<Position>, path: seq<Position>, i: nat, space: Space, pos: Position, radius: real, sqrt: real -> real): Option<Position>
    requires i + 1 < |path|
  {
    match SegmentIntersections(path, i, space, pos, radius, sqrt)
    case None => desired
    case Some(ints) =>
      var afterFirst := if ints.first.Some? then Some(Absolute(ints.first.value, pos)) else desired;
      if ints.second.Some? then
        var potential := Absolute(ints.second.value, pos);
        if afterFirst.None? || space.shortestDistance(potential, path[i + 1]) < space.shortestDistance(afterFirst.value, path[i + 1])
        then Some(potential)
        else afterFirst
      else afterFirst
  }

  /** The choice after the first `k` segments. */
  function Scan(path: seq<Position>, k: nat, space: Space, pos: Position, radius: real, sqrt: real -> real): Option<Position>
    requires k < |path|
  {
    if k == 0 then None else Step(Scan(path, k - 1, space, pos, radius, sqrt), path, k - 1, space, pos, radius, sqrt)
  }

  /** Segment `i` offers at least one intersection. */
  predicate Offers(path: seq<Position>, i: nat, space: Space, pos: Position, radius: real, sqrt: real -> real)
    requires i + 1 < |path|
  {
    var ints := SegmentIntersections(path, i, space, pos, radius, sqrt);
    ints.Some? && (ints.value.first.Some? || ints.value.second.Some?)
  }

  /**
   * What `getDesiredPosition` returns: the agent position for an empty path,
   * the last waypoint when it is within `radius` by plain Euclidean distance,
   * and otherwise the choice of the segment scan (`None` for null), put back
   * into the arena by `toroidalWrap`.
   */
  function DesiredPosition(path: seq<Position>, space: Space, pos: Position, radius: real, sqrt: real -> real): Option<Position>
  {
    if |path| == 0 then Some(pos)
    else
      var lastPoint := path[|path| - 1];
      if sqrt(SquaredDistance(pos, lastPoint)) <= radius then Some(lastPoint)
      else WrapIfPresent(space, Scan(path, |path| - 1, space, pos, radius, sqrt))
  }

  class BeePursuit {
    var path: seq<Position>

    constructor()
      ensures path == []
    {
      path := [];
    }

    /** `setPath`: the stored path becomes exactly the positions of `newPath`, in order. */
    method SetPath(newPath: seq<BeeNode.BeeNode>)
      modifies this
      ensures |path| == |newPath|
      ensures forall i :: 0 <= i < |newPath| ==> path[i] == newPath[i].position
    {
      path := [];
      for i := 0 to |newPath|
        invariant |path| == i
        invariant forall j :: 0 <= j < i ==> path[j] == newPath[j].position
      {
        path := path + [newPath[i].GetPosition()];
      }
    }

    /** `getDesiredPosition`. */
    method GetDesiredPosition(space: Space, pos: Position, radius: real, sqrt: real -> real) returns (r: Option<Position>)
      ensures r == DesiredPosition(path, space, pos, radius, sqrt)
    {
      if |path| == 0 {
        return Some(pos);
      }
      var desiredPosition := ScanSegments(path, space, pos, radius, sqrt);
      var lastPoint := path[|path| - 1];
      if sqrt(SquaredDistance(pos, lastPoint)) <= radius {
        return Some(lastPoint);
      }
      return WrapIfPresent(space, desiredPosition);
    }
  }

  /** The segment loop of `getDesiredPosition`: the choice after every segment of `path`. */
  method ScanSegments(path: seq<Position>, space: Space, pos: Position, radius: real, sqrt: real -> real) returns (desiredPosition: Option<Position>)
    requires |path| > 0
    ensures desiredPosition == Scan(path, |path| - 1, space, pos, radius, sqrt)
  {
    desiredPosition := None;
    var i := 0;
    while i < |path| - 1
      invariant 0 <= i <= |path| - 1
      invariant desiredPosition == Scan(path, i, space, pos, radius, sqrt)
    {
      desiredPosition := SegmentStep(desiredPosition, path, i, space, pos, radius, sqrt);
      i := i + 1;
    }
  }

  /** The body of the segment loop of `getDesiredPosition`, for segment `i`. */
  method SegmentStep(desired: Option<Position>, path: seq<Position>, i: nat, space: Space, pos: Position, radius: real, sqrt: real -> real)
    returns (desiredPosition: Option<Position>)
    requires i + 1 < |path|
    ensures desiredPosition == Step(desired, path, i, space, pos, radius, sqrt)
  {
    desiredPosition := desired;
    var startVector := space.shortestVector(pos, path[i]);
    var endVector := space.shortestVector(pos, path[i + 1]);
    var intersections := CircleLineIntersections(startVector, endVector, radius, sqrt);
    if intersections.Some? {
      if intersections.value.first.Some? {
        desiredPosition := Some(Absolute(intersections.value.first.value, pos));
      }
      if intersections.value.second.Some? {
        var potentialPosition := Absolute(intersections.value.second.value, pos);
        if desiredPosition.None?
          || space.shortestDistance(potentialPosition, path[i + 1]) < space.shortestDistance(desiredPosition.value, path[i + 1])
        {
          desiredPosition := Some(potentialPosition);
        }
      }
    }
  }

  /** An empty path makes the agent's own position the target. */
  lemma EmptyPathTargetsPosition(space: Space, pos: Position, radius: real, sqrt: real -> real)
    ensures DesiredPosition([], space, pos, radius, sqrt) == Some(pos)
  {
  }

  /**
   * With an exact square root and a non-negative radius, the last waypoint is
   * the target exactly when its squared Euclidean distance is at most `radius²`;
   * otherwise the segment scan decides.
   */
  lemma LastWaypointWithinRadius(path: seq<Position>, space: Space, pos: Position, radius: real, sqrt: real -> real)
    requires |path| > 0 && 0.0 <= radius
    requires IsRoot(sqrt(SquaredDistance(pos, path[|path| - 1])), SquaredDistance(pos, path[|path| - 1]))
    ensures SquaredDistance(pos, path[|path| - 1]) <= radius * radius ==>
      DesiredPosition(path, space, pos, radius, sqrt) == Some(path[|path| - 1])
    ensures SquaredDistance(pos, path[|path| - 1]) > radius * radius ==>
      DesiredPosition(path, space, pos, radius, sqrt) == WrapIfPresent(space, Scan(path, |path| - 1, space, pos, radius, sqrt))
  {
    RootOrder(sqrt(SquaredDistance(pos, path[|path| - 1])), radius);
  }

  /** A single waypoint outside the circle gives no target (null). */
  lemma SingleFarWaypoint(p: Position, space: Space, pos: Position, radius: real, sqrt: real -> real)
    requires sqrt(SquaredDistance(pos, p)) > radius
    ensures DesiredPosition([p], space, pos, radius, sqrt) == None
  {
  }

  /**
   * A segment whose first intersection is valid overrides every earlier
   * choice: the step's result does not depend on the choice it starts from.
   */
  lemma FirstIntersectionOverrides(d1: Option<Position>, d2: Option<Position>, path: seq<Position>, i: nat, space: Space, pos: Position, radius: real, sqrt: real -> real)
    requires i + 1 < |path|
    requires var ints := SegmentIntersections(path, i, space, pos, radius, sqrt); ints.Some? && ints.value.first.Some?
    ensures Step(d1, path, i, space, pos, radius, sqrt) == Step(d2, path, i, space, pos, radius, sqrt)
  {
  }

  /**
   * A valid second intersection replaces the choice after the first slot when
   * there is none or when it is strictly closer to `path[i+1]`; otherwise that
   * choice stands.
   */
  lemma SecondIntersectionChoice(desired: Option<Position>, path: seq<Position>, i: nat, space: Space, pos: Position, radius: real, sqrt: real -> real)
    requires i + 1 < |path|
    requires var ints := SegmentIntersections(path, i, space, pos, radius, sqrt); ints.Some? && ints.value.second.Some?
    ensures var ints := SegmentIntersections(path, i, space, pos, radius, sqrt).value;
      var afterFirst := if ints.first.Some? then Some(Absolute(ints.first.value, pos)) else desired;
      var potential := Absolute(ints.second.value, pos);
      var r := Step(desired, path, i, space, pos, radius, sqrt);
      && (afterFirst.None? ==> r == Some(potential))
      && (afterFirst.Some? ==>
            (space.shortestDistance(potential, path[i + 1]) < space.shortestDistance(afterFirst.value, path[i + 1]) ==> r == Some(potential))
            && (space.shortestDistance(potential, path[i + 1]) >= space.shortestDistance(afterFirst.value, path[i + 1]) ==> r == afterFirst))
  {
  }

  /** The scan ends with no choice exactly when no segment offers an intersection. */
  lemma ScanNoneIff(path: seq<Position>, k: nat, space: Space, pos: Position, radius: real, sqrt: real -> real)
    requires k < |path|
    ensures Scan(path, k, space, pos, radius, sqrt).None? <==>
      forall j :: 0 <= j < k ==> !Offers(path, j, space, pos, radius, sqrt)
  {
    var scan := (i: nat) => if i < |path| then Scan(path, i, space, pos, radius, sqrt) else None;
    var offers := (i: nat) => i + 1 < |path| && Offers(path, i, space, pos, radius, sqrt);
    forall i: nat | i < k
      ensures scan(i + 1).None? <==> scan(i).None? && !offers(i)
    {
      StepNone(Scan(path, i, space, pos, radius, sqrt), path, i, space, pos, radius, sqrt);
    }
    ScanFold.NoneUntilOffered(scan, offers, k);
  }

  /** A step leaves no choice exactly when there was none and its segment offers nothing. */
  lemma StepNone(desired: Option<Position>, path: seq<Position>, i: nat, space: Space, pos: Position, radius: real, sqrt: real -> real)
    requires i + 1 < |path|
    ensures Step(desired, path, i, space, pos, radius, sqrt).None? <==>
      desired.None? && !Offers(path, i, space, pos, radius, sqrt)
  {
  }

  /**
   * With an exact square root every choice of the scan is at distance `radius`
   * from the agent, measured as the displacement the simulator reported.
   */
  lemma {:induction false} ScanOnCircle(path: seq<Position>, k: nat, space: Space, pos: Position, radius: real, sqrt: real -> real)
    requires k < |path| && ExactSqrt(sqrt)
    ensures var d := Scan(path, k, space, pos, radius, sqrt); d.Some? ==> AtRadius(d.value, pos, radius)
  {
    if k > 0 {
      ScanOnCircle(path, k - 1, space, pos, radius, sqrt);
      StepOnCircle(Scan(path, k - 1, space, pos, radius, sqrt), path, k - 1, space, pos, radius, sqrt);
    }
  }

  /** A step keeps the property that the choice, if any, is at distance `radius`. */
  lemma StepOnCircle(desired: Option<Position>, path: seq<Position>, i: nat, space: Space, pos: Position, radius: real, sqrt: real -> real)
    requires i + 1 < |path| && ExactSqrt(sqrt)
    requires desired.Some? ==> AtRadius(desired.value, pos, radius)
    ensures var d := Step(desired, path, i, space, pos, radius, sqrt); d.Some? ==> AtRadius(d.value, pos, radius)
  {
    IntersectionsOnCircle(space.shortestVector(pos, path[i]), space.shortestVector(pos, path[i + 1]), radius, sqrt);
    var ints := SegmentIntersections(path, i, space, pos, radius, sqrt);
    StepChoices(desired, path, i, space, pos, radius, sqrt);
    if ints.Some? {
      if ints.value.first.Some? {
        AbsoluteAtRadius(ints.value.first.value, pos, radius);
      }
      if ints.value.second.Some? {
        AbsoluteAtRadius(ints.value.second.value, pos, radius);
      }
    }
  }

  /** A step keeps the choice it starts from or takes one of its segment's intersections. */
  lemma StepChoices(desired: Option<Position>, path: seq<Position>, i: nat, space: Space, pos: Position, radius: real, sqrt: real -> real)
    requires i + 1 < |path|
    ensures var d := Step(desired, path, i, space, pos, radius, sqrt);
      var ints := SegmentIntersections(path, i, space, pos, radius, sqrt);
      || d == desired
      || (ints.Some? && ints.value.first.Some? && d == Some(Absolute(ints.value.first.value, pos)))
      || (ints.Some? && ints.value.second.Some? && d == Some(Absolute(ints.value.second.value, pos)))
  {
  }
}
