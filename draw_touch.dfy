/**
 * The control-point gesture of DrawTouch.cs: a press starts a list of
 * control points at the pointer, drags append or move the end point once
 * the pointer has moved far enough, entering the trigger adds at most one
 * interior point between two releases, and a release clears everything. While at least two
 * points exist, each drag samples a quadratic Bezier curve through the
 * first, second and last point.
 *
 * The pure functions give the state machine over (controlPoints,
 * hasControlPoint); the class DrawTouch runs the same events on fields and
 * is proved against them. BezierCurve.Quadratic is not part of this model:
 * it is a function value the class is given.
 */
module TouchDrawing {
  import opened Geometry

  datatype Option<T> = None | Some(value: T)

  /** The state DrawTouch keeps between input events. */
  datatype Gesture = Gesture(controlPoints: seq<Vec2>, hasControlPoint: bool)

  /** The input events, with the pointer position each one reads. */
  datatype Event =
    | MouseDown(pointer: Vec2)
    | MouseDrag(pointer: Vec2)
    | MouseUp
    | TriggerEnter(pointer: Vec2)

  const Idle: Gesture := Gesture([], false)

  /** isMovedFarEnough: the pointer is strictly farther than minDistance
      from the last control point. isMovedFarEnough reads
      controlPoints[Count - 1], so the list must not be empty. */
  function IsMovedFarEnough(mousePosition: Vec2, controlPoints: seq<Vec2>, minDistance: real,
                            mag: Vec2 -> real): bool
    requires |controlPoints| > 0
  {
    Distance(mousePosition, controlPoints[|controlPoints| - 1], mag) > minDistance
  }

  /** What UpdateVectorLine does to the list: with two points the pointer
      is appended, and then, with more than two, index 2 is set to it. */
  function UpdatedControlPoints(controlPoints: seq<Vec2>, mousePosition: Vec2): (r: seq<Vec2>)
    ensures |controlPoints| < 2 ==> r == controlPoints
    ensures |controlPoints| == 2 ==> r == controlPoints + [mousePosition]
    ensures |controlPoints| > 2 ==> r == controlPoints[2 := mousePosition]
    ensures |controlPoints| <= 3 ==> |r| <= 3
  {
    var added := if |controlPoints| == 2 then controlPoints + [mousePosition] else controlPoints;
    if |added| > 2 then added[2 := mousePosition] else added
  }

  /** One event. A drag on an empty list is the out-of-range read in
      isMovedFarEnough, modelled as None. */
  function Step(g: Gesture, e: Event, minDistance: real, mag: Vec2 -> real): Option<Gesture> {
    match e
    case MouseDown(p) => Some(Gesture([p], g.hasControlPoint))
    case MouseDrag(p) =>
      if |g.controlPoints| == 0 then None
      else if IsMovedFarEnough(p, g.controlPoints, minDistance, mag)
      then Some(Gesture(UpdatedControlPoints(g.controlPoints, p), g.hasControlPoint))
      else Some(g)
    case MouseUp => Some(Idle)
    case TriggerEnter(p) =>
      if !g.hasControlPoint then Some(Gesture(g.controlPoints + [p], true)) else Some(g)
  }

  /** A sequence of events, stopping at the first fault. */
  function Run(g: Gesture, events: seq<Event>, minDistance: real, mag: Vec2 -> real): Option<Gesture>
    decreases |events|
  {
    if events == [] then Some(g)
    else match Step(g, events[0], minDistance, mag)
      case None => None
      case Some(next) => Run(next, events[1..], minDistance, mag)
  }

  /** The invariant of the gesture state: at most three points, and a
      second point exists only once the interior point has been added. */
  ghost predicate Bounded(g: Gesture) {
    |g.controlPoints| <= 3 && (|g.controlPoints| >= 2 ==> g.hasControlPoint)
  }

  // ---------------------------------------------------------------------
  // One event at a time

  /** A press leaves exactly one point, the pointer; the flag is kept. */
  lemma MouseDownStarts(g: Gesture, p: Vec2, minDistance: real, mag: Vec2 -> real)
    ensures Step(g, MouseDown(p), minDistance, mag) == Some(Gesture([p], g.hasControlPoint))
  {
  }

  /** A release empties the list and clears the flag. */
  lemma MouseUpClears(g: Gesture, minDistance: real, mag: Vec2 -> real)
    ensures Step(g, MouseUp, minDistance, mag) == Some(Gesture([], false))
  {
  }

  /** Entering the trigger appends the pointer exactly when the flag is
      clear, and sets it; a second entry changes nothing. */
  lemma TriggerAddsOnce(g: Gesture, p: Vec2, q: Vec2, minDistance: real, mag: Vec2 -> real)
    ensures !g.hasControlPoint ==>
      Step(g, TriggerEnter(p), minDistance, mag) == Some(Gesture(g.controlPoints + [p], true))
    ensures g.hasControlPoint ==> Step(g, TriggerEnter(p), minDistance, mag) == Some(g)
    ensures Step(Step(g, TriggerEnter(p), minDistance, mag).value, TriggerEnter(q), minDistance, mag)
         == Step(g, TriggerEnter(p), minDistance, mag)
  {
  }

  /** A drag that does not get strictly farther than minDistance from the
      last point leaves the state as it was. */
  lemma ShortDragIsNoOp(g: Gesture, p: Vec2, minDistance: real, mag: Vec2 -> real)
    requires |g.controlPoints| > 0
    requires Distance(p, g.controlPoints[|g.controlPoints| - 1], mag) <= minDistance
    ensures Step(g, MouseDrag(p), minDistance, mag) == Some(g)
  {
  }

  /** A drag that moved far enough: with one point nothing changes, with
      two the pointer becomes the third, with three only index 2 is
      overwritten. The flag is never touched. */
  lemma LongDragBySize(g: Gesture, p: Vec2, minDistance: real, mag: Vec2 -> real)
    requires 1 <= |g.controlPoints| <= 3
    requires Distance(p, g.controlPoints[|g.controlPoints| - 1], mag) > minDistance
    ensures Step(g, MouseDrag(p), minDistance, mag).Some?
    ensures var r := Step(g, MouseDrag(p), minDistance, mag).value;
      && r.hasControlPoint == g.hasControlPoint
      && (|g.controlPoints| == 1 ==> r == g)
      && (|g.controlPoints| == 2 ==> r.controlPoints == g.controlPoints + [p])
      && (|g.controlPoints| == 3 ==>
            && |r.controlPoints| == 3
            && r.controlPoints[0] == g.controlPoints[0]
            && r.controlPoints[1] == g.controlPoints[1]
            && r.controlPoints[2] == p)
  {
  }

  // ---------------------------------------------------------------------
  // Sequences of events

  /** A press does not clear the flag: a trigger entered after a release
      and before the next press sets it, so the gesture that press starts
      gets no interior point from a later trigger. */
  lemma TriggerBeforePressUsesPoint(a: Vec2, b: Vec2, d: Vec2, minDistance: real, mag: Vec2 -> real)
    ensures Run(Idle, [TriggerEnter(a), MouseDown(b), TriggerEnter(d)], minDistance, mag)
         == Some(Gesture([b], true))
  {
    var events := [TriggerEnter(a), MouseDown(b), TriggerEnter(d)];
    assert events[1..] == [MouseDown(b), TriggerEnter(d)];
    assert events[1..][1..] == [TriggerEnter(d)];
    assert Run(Gesture([b], true), [TriggerEnter(d)], minDistance, mag) == Some(Gesture([b], true));
    assert Run(Gesture([a], true), events[1..], minDistance, mag) == Some(Gesture([b], true));
  }

  lemma StepKeepsBounded(g: Gesture, e: Event, minDistance: real, mag: Vec2 -> real)
    requires Bounded(g)
    ensures Step(g, e, minDistance, mag).Some? ==> Bounded(Step(g, e, minDistance, mag).value)
  {
  }

  /** Every event keeps the invariant, so over any sequence of events the
      list never holds more than three points. */
  lemma {:induction false} RunKeepsBounded(g: Gesture, events: seq<Event>, minDistance: real,
                                           mag: Vec2 -> real)
    requires Bounded(g)
    ensures Run(g, events, minDistance, mag).Some? ==>
      Bounded(Run(g, events, minDistance, mag).value)
      && |Run(g, events, minDistance, mag).value.controlPoints| <= 3
    decreases |events|
  {
    if events != [] {
      StepKeepsBounded(g, events[0], minDistance, mag);
      var s := Step(g, events[0], minDistance, mag);
      if s.Some? {
        RunKeepsBounded(s.value, events[1..], minDistance, mag);
      }
    }
  }

  /** From the initial state, no sequence of events makes the list longer
      than three. */
  lemma AtMostThreeControlPoints(events: seq<Event>, minDistance: real, mag: Vec2 -> real)
    ensures Run(Idle, events, minDistance, mag).Some? ==>
      |Run(Idle, events, minDistance, mag).value.controlPoints| <= 3
  {
    RunKeepsBounded(Idle, events, minDistance, mag);
  }

  /** Until a release, the flag stays set once set, so the trigger adds at
      most one interior point between two releases. */
  lemma {:induction false} FlagHeldUntilRelease(g: Gesture, events: seq<Event>, minDistance: real,
                                                mag: Vec2 -> real)
    requires g.hasControlPoint
    requires forall k :: 0 <= k < |events| ==> !events[k].MouseUp?
    ensures Run(g, events, minDistance, mag).Some? ==>
      Run(g, events, minDistance, mag).value.hasControlPoint
    decreases |events|
  {
    if events != [] {
      var s := Step(g, events[0], minDistance, mag);
      if s.Some? {
        FlagHeldUntilRelease(s.value, events[1..], minDistance, mag);
      }
    }
  }

  /** Between a press and the next release the list is never empty, so no
      drag in a press-drag-release gesture reaches the out-of-range read. */
  lemma {:induction false} GestureNeverFaults(g: Gesture, events: seq<Event>, minDistance: real,
                                              mag: Vec2 -> real)
    requires |g.controlPoints| > 0
    requires forall k :: 0 <= k < |events| ==> !events[k].MouseUp?
    ensures Run(g, events, minDistance, mag).Some?
    ensures |Run(g, events, minDistance, mag).value.controlPoints| > 0
    decreases |events|
  {
    if events != [] {
      var s := Step(g, events[0], minDistance, mag);
      assert s.Some?;
      GestureNeverFaults(s.value, events[1..], minDistance, mag);
    }
  }

  /** With the flag set and a single point, every event but a release
      leaves exactly one point: a press restarts the list at the pointer,
      a drag on one point changes nothing, and the trigger does nothing. */
  lemma {:induction false} StuckWithOnePoint(g: Gesture, events: seq<Event>, minDistance: real,
                                             mag: Vec2 -> real)
    requires g.hasControlPoint && |g.controlPoints| == 1
    requires forall k :: 0 <= k < |events| ==> !events[k].MouseUp?
    ensures Run(g, events, minDistance, mag).Some?
    ensures Run(g, events, minDistance, mag).value.hasControlPoint
    ensures |Run(g, events, minDistance, mag).value.controlPoints| == 1
    decreases |events|
  {
    if events != [] {
      var s := Step(g, events[0], minDistance, mag);
      assert s.Some? && s.value.hasControlPoint && |s.value.controlPoints| == 1;
      StuckWithOnePoint(s.value, events[1..], minDistance, mag);
    }
  }

  /** A trigger entered after a release and before the next press uses up
      the interior point: until the following release the list holds one
      point, so that gesture never has the two points a curve needs. */
  lemma TriggerBeforePressNeverDraws(a: Vec2, b: Vec2, events: seq<Event>, minDistance: real,
                                     mag: Vec2 -> real)
    requires forall k :: 0 <= k < |events| ==> !events[k].MouseUp?
    ensures Run(Idle, [TriggerEnter(a), MouseDown(b)] + events, minDistance, mag).Some?
    ensures |Run(Idle, [TriggerEnter(a), MouseDown(b)] + events, minDistance, mag).value.controlPoints| == 1
  {
    var all := [TriggerEnter(a), MouseDown(b)] + events;
    assert all[0] == TriggerEnter(a) && all[1..] == [MouseDown(b)] + events;
    assert all[1..][0] == MouseDown(b) && all[1..][1..] == events;
    StuckWithOnePoint(Gesture([b], true), events, minDistance, mag);
    assert Run(Gesture([a], true), all[1..], minDistance, mag)
        == Run(Gesture([b], true), events, minDistance, mag);
  }

  // ---------------------------------------------------------------------
  // The curve

  /** The inputs CalculateQuadraticBezierCurvePoint hands to the Bezier
      formula: start, control, and the last point. */
  function CurveInputs(controlPoints: seq<Vec2>): (Vec2, Vec2, Vec2)
    requires |controlPoints| > 1
  {
    (controlPoints[0], controlPoints[1], controlPoints[|controlPoints| - 1])
  }

  /** With two points the control point and the end point are the same;
      with three the inputs are the three points in order. */
  lemma CurveInputsBySize(controlPoints: seq<Vec2>)
    requires 2 <= |controlPoints| <= 3
    ensures CurveInputs(controlPoints).0 == controlPoints[0]
    ensures |controlPoints| == 2 ==> CurveInputs(controlPoints).1 == CurveInputs(controlPoints).2 == controlPoints[1]
    ensures |controlPoints| == 3 ==> CurveInputs(controlPoints) == (controlPoints[0], controlPoints[1], controlPoints[2])
  {
  }

  /** The curve parameter of sample i out of pointsInCurve. */
  function SampleParameter(i: int, pointsInCurve: int): real
    requires pointsInCurve != 0
  {
    i as real / pointsInCurve as real
  }

  /** The samples run from 0 to 1 without ever going back. */
  lemma SampleParametersSpan(pointsInCurve: int)
    requires pointsInCurve > 0
    ensures SampleParameter(0, pointsInCurve) == 0.0
    ensures SampleParameter(pointsInCurve, pointsInCurve) == 1.0
    ensures forall i, j :: 0 <= i <= j <= pointsInCurve ==>
      0.0 <= SampleParameter(i, pointsInCurve) <= SampleParameter(j, pointsInCurve) <= 1.0
  {
    forall i, j | 0 <= i <= j <= pointsInCurve
      ensures 0.0 <= SampleParameter(i, pointsInCurve) <= SampleParameter(j, pointsInCurve) <= 1.0
    {
      SampleOrder(i, j, pointsInCurve);
    }
  }

  lemma SampleOrder(i: int, j: int, n: int)
    requires 0 <= i <= j <= n && n > 0
    ensures 0.0 <= i as real / n as real <= j as real / n as real <= 1.0
  {
    var r := 1.0 / n as real;
    assert r > 0.0;
    assert i as real / n as real == i as real * r;
    assert j as real / n as real == j as real * r;
    assert n as real * r == 1.0;
  }

  /** curve holds the samples RenderBezierCurve draws: sample i is the
      Bezier point at parameter i / pointsInCurve for i = 0..pointsInCurve. */
  ghost predicate IsSampledCurve(curve: seq<Vec2>, controlPoints: seq<Vec2>, pointsInCurve: int,
                                 quadratic: (Vec2, Vec2, Vec2, real) -> Vec2)
    requires |controlPoints| > 1 && pointsInCurve != 0
  {
    var (p0, p1, p2) := CurveInputs(controlPoints);
    && |curve| == (if pointsInCurve < 0 then 0 else pointsInCurve + 1)
    && forall i :: 0 <= i < |curve| ==> curve[i] == quadratic(p0, p1, p2, SampleParameter(i, pointsInCurve))
  }

  // ---------------------------------------------------------------------
  // The engine object

  class DrawTouch {
    const minDistance: real
    const pointsInCurve: int
    /** Vector2.magnitude. */
    const magnitude: Vec2 -> real
    /** BezierCurve.Quadratic. */
    const quadratic: (Vec2, Vec2, Vec2, real) -> Vec2
    var controlPoints: seq<Vec2>
    var hasControlPoint: bool

    function State(): Gesture
      reads this
    {
      Gesture(controlPoints, hasControlPoint)
    }

    ghost predicate Valid()
      reads this
    {
      pointsInCurve != 0 && Bounded(State())
    }

    constructor (minDistance: real, pointsInCurve: int, magnitude: Vec2 -> real,
                 quadratic: (Vec2, Vec2, Vec2, real) -> Vec2)
      requires pointsInCurve != 0
      ensures Valid() && State() == Idle
      ensures this.minDistance == minDistance && this.pointsInCurve == pointsInCurve
      ensures this.magnitude == magnitude && this.quadratic == quadratic
    {
      this.minDistance := minDistance;
      this.pointsInCurve := pointsInCurve;
      this.magnitude := magnitude;
      this.quadratic := quadratic;
      controlPoints := [];
      hasControlPoint := false;
    }

    method OnMouseDown(pointer: Vec2)
      requires Valid()
      modifies this
      ensures Valid()
      ensures controlPoints == [pointer] && hasControlPoint == old(hasControlPoint)
      ensures Some(State()) == Step(old(State()), MouseDown(pointer), minDistance, magnitude)
    {
      ResetControlPoints();
      SetStartingPoint(pointer);
    }

    /** A drag reads the last point, so a gesture must be under way; the
        result is the sampled curve, drawn only while two or more points
        exist. */
    method OnMouseDrag(pointer: Vec2) returns (curve: Option<seq<Vec2>>)
      requires Valid() && |controlPoints| > 0
      modifies this
      ensures Valid() && hasControlPoint == old(hasControlPoint)
      ensures IsMovedFarEnough(pointer, old(controlPoints), minDistance, magnitude)
        ==> controlPoints == UpdatedControlPoints(old(controlPoints), pointer)
      ensures !IsMovedFarEnough(pointer, old(controlPoints), minDistance, magnitude)
        ==> controlPoints == old(controlPoints)
      ensures Some(State()) == Step(old(State()), MouseDrag(pointer), minDistance, magnitude)
      ensures curve.Some? <==> |controlPoints| > 1
      ensures curve.Some? ==> IsSampledCurve(curve.value, controlPoints, pointsInCurve, quadratic)
    {
      var isMovedEnough := IsMovedFarEnough(pointer, controlPoints, minDistance, magnitude);
      if isMovedEnough {
        UpdateVectorLine(pointer);
      }
      if |controlPoints| > 1 {
        var points := RenderBezierCurve();
        curve := Some(points);
      } else {
        curve := None;
      }
    }

    method OnMouseUp()
      requires Valid()
      modifies this
      ensures Valid()
      ensures controlPoints == [] && !hasControlPoint
      ensures Some(State()) == Step(old(State()), MouseUp, minDistance, magnitude)
    {
      ResetControlPoints();
      hasControlPoint := false;
    }

    method OnTriggerEnter2D(pointer: Vec2)
      requires Valid()
      modifies this
      ensures Valid()
      ensures !old(hasControlPoint) ==> controlPoints == old(controlPoints) + [pointer] && hasControlPoint
      ensures old(hasControlPoint) ==> controlPoints == old(controlPoints) && hasControlPoint
      ensures Some(State()) == Step(old(State()), TriggerEnter(pointer), minDistance, magnitude)
    {
      if !hasControlPoint {
        AddControlPoint(pointer);
        hasControlPoint := true;
      }
    }

    method AddControlPoint(newFingerPosition: Vec2)
      modifies this`controlPoints
      ensures controlPoints == old(controlPoints) + [newFingerPosition]
    {
      controlPoints := controlPoints + [newFingerPosition];
    }

    method ResetControlPoints()
      modifies this`controlPoints
      ensures controlPoints == []
    {
      controlPoints := [];
    }

    method SetStartingPoint(pointer: Vec2)
      modifies this`controlPoints
      ensures controlPoints == old(controlPoints) + [pointer]
    {
      AddControlPoint(pointer);
    }

    /** Appends the pointer when there are two points, then overwrites
        index 2 when there are more than two. */
    method UpdateVectorLine(mousePosition: Vec2)
      modifies this`controlPoints
      ensures controlPoints == UpdatedControlPoints(old(controlPoints), mousePosition)
      ensures |old(controlPoints)| < 2 ==> controlPoints == old(controlPoints)
      ensures |old(controlPoints)| == 2 ==> controlPoints == old(controlPoints) + [mousePosition]
      ensures |old(controlPoints)| > 2 ==> controlPoints == old(controlPoints)[2 := mousePosition]
    {
      if |controlPoints| == 2 {
        AddControlPoint(mousePosition);
      }
      if |controlPoints| > 2 {
        controlPoints := controlPoints[2 := mousePosition];
      }
    }

    /** Samples the curve at i / pointsInCurve for i = 0..pointsInCurve. */
    method RenderBezierCurve() returns (curve: seq<Vec2>)
      requires Valid() && |controlPoints| > 1
      ensures IsSampledCurve(curve, controlPoints, pointsInCurve, quadratic)
    {
      var (p0, p1, p2) := CurveInputs(controlPoints);
      curve := [];
      var i := 0;
      while i <= pointsInCurve
        invariant 0 <= i <= (if pointsInCurve < 0 then 0 else pointsInCurve + 1)
        invariant |curve| == i
        invariant forall k :: 0 <= k < i ==> curve[k] == quadratic(p0, p1, p2, SampleParameter(k, pointsInCurve))
      {
        var t := i as real / pointsInCurve as real;
        curve := curve + [quadratic(p0, p1, p2, t)];
        i := i + 1;
      }
    }
  }
}
