# Bezier curve controls and verlet rope, modelled in Dafny

This project models the two scripts at the centre of the Unity project
`bezier-curve-controls`.

- `DrawTouch.cs` is the touch gesture that builds the control points of a
  quadratic Bezier curve. A press starts the list at the pointer. A drag
  that moves far enough from the last point appends the end point or moves
  it. Entering the trigger collider adds at most one interior control
  point between two releases: it appends the pointer only while the flag
  `hasControlPoint` is clear, and only a release clears the flag. A press
  does not clear it, so a trigger entered after a release but before the
  next press uses up the point of the gesture that press starts. Until
  the following release that gesture keeps exactly one point
  (`StuckWithOnePoint`, `TriggerBeforePressNeverDraws`), so it never
  draws a curve: `OnMouseDrag` returns a curve exactly when more than one
  point exists. A release clears the list and the flag. While at least two points exist, each drag samples the curve at
  `pointsInCurve + 1` parameters.
- `Rope.cs` is a verlet rope. Start lays a chain of segments downward from
  a start point. Each physics tick integrates every segment but the last
  under gravity. It then runs `constaintsToApply` constraint passes. Each
  pass pins segment 0 to the pointer and pulls each adjacent pair toward
  `ropeSegLength`.

Files:

- `geometry.dfy` (module `Geometry`): `Vector2` as a pair of exact reals.
  `Vector2.magnitude` is a function value. The predicate `IsMagnitude`
  lists the three facts about it that the proofs use: it is non-negative,
  it is zero only on the zero vector, and scaling by `k` scales it by
  `|k|`.
- `draw_touch.dfy` (module `TouchDrawing`): the gesture as a pure state
  machine (`Step`, `Run`) and the class `DrawTouch`. The class has the
  script's fields, and each event handler is proved to make the same
  transition as `Step`.
- `rope.dfy` (module `RopeSim`): each stage of the rope as a function on
  a sequence of segments (`Integrated`, `ConstraintPass`, `Relaxations`,
  `Simulated`). The class `Rope` keeps the segments in an array and
  updates them in place. Its methods are proved to compute those
  functions.

The pointer's world position and `Time.deltaTime`, which the scripts read
from the engine, are parameters of the methods. `Vector2.magnitude` and
`BezierCurve.Quadratic` are arguments of the constructors, kept in const
fields of the classes (`magnitude`, `quadratic`).

Behaviour of the scripts that the model follows as written:

- A drag while only one point exists adds nothing. `UpdateVectorLine`
  only acts on two or more points.
- The curve is sampled whenever more than one point exists, not only when
  there are exactly three. With two points the control point and the end
  point coincide.
- The integration loop stops before the last segment, so the last segment
  never moves under gravity.
- The middle control point is never steered. `UpdateMiddleControlPoint`
  only reads two points and logs them.

## Model

| member | source | states |
|---|---|---|
| TouchDrawing.IsMovedFarEnough | Assets/Scripts/DrawTouch.cs:231-234 | no ensures of its own (strictly farther than minDistance from the last point); its effect on a drag is stated by ShortDragIsNoOp and LongDragBySize |
| TouchDrawing.UpdatedControlPoints | Assets/Scripts/DrawTouch.cs:187-205 | fewer than two points are left as they are, two points get the pointer appended, more than two get index 2 overwritten; the list never grows past three |
| TouchDrawing.Step | Assets/Scripts/DrawTouch.cs:38-91 | no ensures of its own (one event of the gesture); its properties are MouseDownStarts, MouseUpClears, TriggerAddsOnce, ShortDragIsNoOp, LongDragBySize and StepKeepsBounded |
| TouchDrawing.TriggerBeforePressUsesPoint | Assets/Scripts/DrawTouch.cs:38-42 | the one sequence trigger, press, trigger from the initial state ends with only the pressed point and the flag set |
| TouchDrawing.StuckWithOnePoint | Assets/Scripts/DrawTouch.cs:38-91 | with the flag set and one point, any events without a release never fault and leave exactly one point and the flag set |
| TouchDrawing.TriggerBeforePressNeverDraws | Assets/Scripts/DrawTouch.cs:38-91 | after a trigger, then a press, from the initial state, any events without a release leave exactly one point, so no curve is drawn before the next release |
| TouchDrawing.CurveInputs | Assets/Scripts/DrawTouch.cs:132-142 | no ensures of its own (points 0, 1 and the last); its properties are CurveInputsBySize |
| TouchDrawing.SampleParameter | Assets/Scripts/DrawTouch.cs:126 | no ensures of its own (i / pointsInCurve); its properties are SampleParametersSpan |
| TouchDrawing.MouseDownStarts | Assets/Scripts/DrawTouch.cs:38-42 | a press leaves exactly one control point, the pointer, and keeps the flag |
| TouchDrawing.MouseUpClears | Assets/Scripts/DrawTouch.cs:73-79 | a release leaves no control points and clears the flag, whatever the state was |
| TouchDrawing.TriggerAddsOnce | Assets/Scripts/DrawTouch.cs:81-91 | entering the trigger appends the pointer and sets the flag exactly when the flag was clear; a second entry changes nothing |
| TouchDrawing.ShortDragIsNoOp | Assets/Scripts/DrawTouch.cs:44-63 | a drag no farther than minDistance from the last point leaves the state unchanged |
| TouchDrawing.LongDragBySize | Assets/Scripts/DrawTouch.cs:187-205 | a drag that moved far enough changes nothing with one point, appends the pointer with two, and overwrites only index 2 with three; the flag is not touched |
| TouchDrawing.StepKeepsBounded | Assets/Scripts/DrawTouch.cs:38-91 | every event keeps the invariant: at most three points, and two or more only once the interior point is added |
| TouchDrawing.RunKeepsBounded | Assets/Scripts/DrawTouch.cs:38-91 | any sequence of events keeps that invariant, so the list never holds more than three points |
| TouchDrawing.AtMostThreeControlPoints | Assets/Scripts/DrawTouch.cs:20 | from the empty initial list, no sequence of events makes the control point list longer than three |
| TouchDrawing.FlagHeldUntilRelease | Assets/Scripts/DrawTouch.cs:73-91 | without a release the flag stays set once set, so the trigger adds at most one point between two releases |
| TouchDrawing.GestureNeverFaults | Assets/Scripts/DrawTouch.cs:231-234 | between a press and the next release the list is never empty, so no drag reaches the read of a missing last point |
| TouchDrawing.CurveInputsBySize | Assets/Scripts/DrawTouch.cs:132-142 | the Bezier inputs are point 0, point 1 and the last point: with two points control and end coincide, with three they are the points in order |
| TouchDrawing.SampleParametersSpan | Assets/Scripts/DrawTouch.cs:124-126 | the sample parameters start at 0, end at 1 and never decrease |
| TouchDrawing.DrawTouch.constructor | Assets/Scripts/DrawTouch.cs:10-22 | a new object has no control points, a clear flag, and the given settings |
| TouchDrawing.DrawTouch.OnMouseDown | Assets/Scripts/DrawTouch.cs:38-42 | the list becomes the pointer alone, the flag is kept, and the new state is the one Step gives |
| TouchDrawing.DrawTouch.OnMouseDrag | Assets/Scripts/DrawTouch.cs:44-71 | the list is updated exactly when the pointer moved far enough, the state is the one Step gives, and a curve is produced exactly when more than one point exists; it holds the samples of the Bezier curve |
| TouchDrawing.DrawTouch.OnMouseUp | Assets/Scripts/DrawTouch.cs:73-79 | the list is emptied, the flag cleared, and the state is the one Step gives |
| TouchDrawing.DrawTouch.OnTriggerEnter2D | Assets/Scripts/DrawTouch.cs:81-91 | with the flag clear the pointer is appended and the flag set; otherwise nothing changes; the state is the one Step gives |
| TouchDrawing.DrawTouch.AddControlPoint | Assets/Scripts/DrawTouch.cs:159-163 | the new point is appended to the list |
| TouchDrawing.DrawTouch.ResetControlPoints | Assets/Scripts/DrawTouch.cs:165-169 | the list is emptied |
| TouchDrawing.DrawTouch.SetStartingPoint | Assets/Scripts/DrawTouch.cs:171-185 | the pointer is appended to the list |
| TouchDrawing.DrawTouch.UpdateVectorLine | Assets/Scripts/DrawTouch.cs:187-209 | fewer than two points: unchanged; two: the pointer is appended; more than two: index 2 becomes the pointer |
| TouchDrawing.DrawTouch.RenderBezierCurve | Assets/Scripts/DrawTouch.cs:119-130 | produces pointsInCurve + 1 samples; sample i is the Bezier point of the first, second and last control point at i / pointsInCurve |
| Geometry.Distance | Assets/Scripts/DrawTouch.cs:233 | no ensures of its own (Vector2.Distance, the magnitude of a - b); its properties are DistanceSymmetric, and RelaxPairSeparation uses it for the pair distance of Rope.cs:71 |
| Geometry.Normalize | Assets/Scripts/Rope.cs:77-81 | no ensures of its own (zero for the zero vector); its properties are NormalizeSpec |
| Geometry.NormalizeSpec | Assets/Scripts/Rope.cs:77-81 | normalising zero gives zero; normalising a non-zero vector gives magnitude one in the same direction |
| Geometry.DistanceSymmetric | Assets/Scripts/Rope.cs:71-81 | the distance from a to b equals the distance from b to a |
| RopeSim.SegmentAt | Assets/Scripts/Rope.cs:118-122 | a new segment is at the given position with zero velocity |
| RopeSim.InitialRope | Assets/Scripts/Rope.cs:22-26 | the chain has max(n, 0) segments, and segment i is at rest, i times ropeSegLength below the start point |
| RopeSim.VerletStep | Assets/Scripts/Rope.cs:45-50 | the previous position becomes the old current position, and the new velocity is the old velocity plus gravity times dt |
| RopeSim.Integrated | Assets/Scripts/Rope.cs:43-51 | the length is kept, every segment but the last takes a verlet step, and the last is unchanged |
| RopeSim.CorrectionVector | Assets/Scripts/Rope.cs:71-84 | no ensures of its own (direction times error); CorrectionAlongPair states what it is away from the degenerate cases |
| RopeSim.CorrectionAlongPair | Assets/Scripts/Rope.cs:71-84 | for a pair at distance dist > 0 the correction is the pair's offset scaled by (dist - ropeSegLength) / dist, for a too-long, too-short or exact pair alike |
| RopeSim.PairCorrection | Assets/Scripts/Rope.cs:84-94 | next to the anchor the first point of the pair does not move |
| RopeSim.PairCorrectionNoOp | Assets/Scripts/Rope.cs:71-94 | a pair already at ropeSegLength, or with coinciding points, is left where it is |
| RopeSim.PairCorrectionKeepsMidpoint | Assets/Scripts/Rope.cs:85-90 | away from the anchor the split correction moves the two points by opposite amounts, so their midpoint stays |
| RopeSim.PairCorrectionReachesLength | Assets/Scripts/Rope.cs:71-94 | for distinct points, one pair step makes their separation exactly ropeSegLength, whether the pair was too long or too short |
| RopeSim.RelaxPair | Assets/Scripts/Rope.cs:68-94 | one pair step changes only the current positions of segments i and i + 1, and changes none at i = 0 |
| RopeSim.RelaxPairSeparation | Assets/Scripts/Rope.cs:68-94 | on the chain, the pair at i ends at separation ropeSegLength when its points were distinct, and a pair at that separation is untouched |
| RopeSim.RelaxedFrameFacts | Assets/Scripts/Rope.cs:66-95 | the pair steps from i on keep the length, never change an index below i, and never change a previous position |
| RopeSim.RelaxFrom | Assets/Scripts/Rope.cs:66-95 | no ensures of its own (the pair steps from i on); its properties are RelaxedFrameFacts |
| RopeSim.ConstraintPass | Assets/Scripts/Rope.cs:60-96 | no ensures of its own (pin segment 0, then relax every pair); its properties are ConstraintPassSpec and, per pair, RelaxPairSeparation |
| RopeSim.ConstraintPassSpec | Assets/Scripts/Rope.cs:60-96 | after one pass segment 0 is at the anchor, the length is kept, and every previous position is unchanged |
| RopeSim.Relaxations | Assets/Scripts/Rope.cs:54-57 | repeated passes keep the number of segments |
| RopeSim.RelaxationsSpec | Assets/Scripts/Rope.cs:54-57 | after one or more passes segment 0 is at the anchor, and no pass changes a previous position |
| RopeSim.Simulated | Assets/Scripts/Rope.cs:40-58 | no ensures of its own (integrate, then the passes); its properties are SimulatedSpec |
| RopeSim.SimulatedSpec | Assets/Scripts/Rope.cs:40-58 | one tick keeps the length, pins segment 0 when any pass runs, gives each integrated segment its old current position as previous position, and keeps the last segment's previous position |
| RopeSim.Rope.Start | Assets/Scripts/Rope.cs:17-27 | the segment array is fresh and holds InitialRope of the start point; the settings are stored |
| RopeSim.Rope.Simulate | Assets/Scripts/Rope.cs:40-58 | the array afterwards is Simulated of its old contents, and segment 0 is at the anchor when any pass runs |
| RopeSim.Rope.Integrate | Assets/Scripts/Rope.cs:43-51 | the array afterwards is Integrated of its old contents |
| RopeSim.Rope.ApplyConstraint | Assets/Scripts/Rope.cs:60-96 | the array afterwards is ConstraintPass of its old contents, and segment 0 is at the anchor |

## Left out

- Rendering is not modelled: `LineRenderer` positions and widths, `DrawRope`, `RemoveLine`, `RemoveCurve` and `InitializeLineRenderer`. `RenderBezierCurve` returns its samples instead of drawing them.
- Colliders are not modelled: the edge collider points set in `SetStartingPoint` and `UpdateVectorLine`, and the commented-out boundary check `isMovedOutsideBounry`. The physics engine's decision to call `OnTriggerEnter2D` is an event of the model.
- `Camera.main.ScreenToWorldPoint(Input.mousePosition)` and `Time.deltaTime` are parameters. `Debug.Log` output is left out.
- `UpdateMiddleControlPoint` has no effect beyond logging. The model leaves it out.
- `SkateboardController.cs` is not part of this model.
- `BezierCurve.Quadratic` is not part of this model. It is a function value, so no property of the curve itself (such as passing through its end points) is claimed.
- `Vector2.magnitude` is a function value constrained only by `IsMagnitude`. The triangle inequality is not assumed, so no claim is made that the constraint passes converge or shrink the total error.
- Single-precision floats are replaced by exact reals. `Vector2.normalized` returns zero for very small vectors in Unity. Here it returns zero only for the zero vector.
- The off-by-one in `RenderBezierCurve` is not modelled. It sets `positionCount` to `pointsInCurve` and then writes index `pointsInCurve`. The model produces all `pointsInCurve + 1` samples.
- `pointsInCurve` is required to be non-zero. With zero, `i / (float)pointsInCurve` is NaN, which reals cannot express.
- A drag on an empty list reads a missing element in `isMovedFarEnough`. `Step` returns `None` for it. `DrawTouch.OnMouseDrag` requires a non-empty list, and `GestureNeverFaults` shows that a press-drag-release gesture never reaches that case.
- In `Rope.cs` each `ApplyConstraint` reads the pointer again. In one `Simulate` the model reads the anchor once for all passes, as if the pointer did not move during one physics tick.
- `Rope.Simulate`: the model moves the integration loop into its own method, `Rope.Integrate`, that `Simulate` calls.
- `Rope.Simulate` and `Rope.ApplyConstraint` do not state the preservation of previous positions in their own contracts. That fact follows from their ensures together with `SimulatedSpec` and `ConstraintPassSpec`.
- `PairCorrectionReachesLength` and `RelaxPairSeparation` require `ropeSegLength >= 0`. With a negative length, `Mathf.Abs` makes the separation `|ropeSegLength|`, which these lemmas do not cover.
- Rope.Simulate, Rope.ApplyConstraint: with `segmentLength <= 0` and `constaintsToApply >= 1` the script's `ApplyConstraint` reads `segments[0]` of an empty list and throws on every physics tick. The model excludes that case by `requires segments.Length > 0 || constaintsToApply <= 0` on `Simulate` (and `segments.Length > 0` on `ApplyConstraint`, `ConstraintPass`, `Relaxations` and `Simulated`), because the failing read leaves nothing to state about the new chain.
- Integer width is not modelled: `int` is unbounded here, so the wrap-arounds of C# `int` at extreme settings are left out. With `pointsInCurve == int.MaxValue` the loop counter of `RenderBezierCurve` wraps and the loop never ends, while `DrawTouch.RenderBezierCurve` returns `pointsInCurve + 1` samples. With `segmentLength == int.MinValue`, `segmentLength - 1` wraps to `int.MaxValue` and the loops of `Simulate` and `ApplyConstraint` read past the empty list, while `Rope.Simulate` with `constaintsToApply <= 0` returns the chain unchanged.
- The `List<RopeSegment>` of `Rope.cs` is an array of fixed length `max(segmentLength, 0)`. Nothing in the script changes its length after `Start`.
