/**
 * The verlet rope of Rope.cs: a chain of segments stored as current and
 * previous positions, advanced by position-based (verlet) integration and
 * pulled back toward a fixed separation by repeated constraint passes,
 * with segment 0 pinned to an anchor (the pointer).
 *
 * The pure functions below specify each stage; the class Rope runs the
 * same stages in place on an array and is proved against them.
 */
module RopeSim {
  import opened Geometry

  datatype RopeSegment = RopeSegment(currentPosition: Vec2, previousPosition: Vec2)

  /** The RopeSegment constructor: a segment at rest at the given position. */
  function SegmentAt(position: Vec2): (s: RopeSegment)
    ensures s.currentPosition == position
    ensures Sub(s.currentPosition, s.previousPosition) == Zero
  {
    RopeSegment(position, position)
  }

  /** The chain Start builds: n segments, beginning at start and stepping
      down by segLength each time. */
  function InitialRope(start: Vec2, segLength: real, n: int): (r: seq<RopeSegment>)
    ensures |r| == if n > 0 then n else 0
    ensures forall i :: 0 <= i < |r| ==>
      r[i] == SegmentAt(Vec2(start.x, start.y - i as real * segLength))
    decreases n
  {
    if n <= 0 then []
    else [SegmentAt(start)] + InitialRope(Vec2(start.x, start.y - segLength), segLength, n - 1)
  }

  /** One verlet step of a single segment under gravity over dt. */
  function VerletStep(s: RopeSegment, gravity: Vec2, dt: real): (r: RopeSegment)
    ensures r.previousPosition == s.currentPosition
    ensures Sub(r.currentPosition, r.previousPosition)
         == Add(Sub(s.currentPosition, s.previousPosition), Scale(gravity, dt))
  {
    var velocity := Sub(s.currentPosition, s.previousPosition);
    RopeSegment(Add(Add(s.currentPosition, velocity), Scale(gravity, dt)), s.currentPosition)
  }

  /** The integration loop of Simulate: every segment but the last takes a
      verlet step. */
  function Integrated(s: seq<RopeSegment>, gravity: Vec2, dt: real): (r: seq<RopeSegment>)
    ensures |r| == |s|
    ensures forall i :: 0 <= i < |s| - 1 ==> r[i] == VerletStep(s[i], gravity, dt)
    ensures |s| > 0 ==> r[|s| - 1] == s[|s| - 1]
  {
    seq(|s|, i requires 0 <= i < |s| => if i < |s| - 1 then VerletStep(s[i], gravity, dt) else s[i])
  }

  /** The vector by which the pair (first, next) is corrected: along the
      pair's direction, as long as the pair's error against segLength. */
  function CorrectionVector(first: Vec2, next: Vec2, segLength: real, mag: Vec2 -> real): Vec2 {
    var dist := mag(Sub(first, next));
    var error := Abs(dist - segLength);
    var changeDir :=
      if dist > segLength then Normalize(Sub(first, next), mag)
      else if dist < segLength then Normalize(Sub(next, first), mag)
      else Zero;
    Scale(changeDir, error)
  }

  /** The correction of the pair (first, next) toward separation segLength.
      Next to the anchor (anchored) the whole correction goes to next;
      elsewhere it is split evenly. */
  function PairCorrection(first: Vec2, next: Vec2, segLength: real, mag: Vec2 -> real, anchored: bool)
    : (r: (Vec2, Vec2))
    ensures anchored ==> r.0 == first
  {
    var changeAmount := CorrectionVector(first, next, segLength, mag);
    if !anchored then (Sub(first, Scale(changeAmount, 0.5)), Add(next, Scale(changeAmount, 0.5)))
    else (first, Add(next, changeAmount))
  }

  /** The pair step at index i of ApplyConstraint's loop, on current
      positions only. */
  function RelaxPair(s: seq<RopeSegment>, i: nat, segLength: real, mag: Vec2 -> real): (r: seq<RopeSegment>)
    requires i + 1 < |s|
    ensures |r| == |s|
    ensures forall k :: 0 <= k < |s| && k != i && k != i + 1 ==> r[k] == s[k]
    ensures forall k :: 0 <= k < |s| ==> r[k].previousPosition == s[k].previousPosition
    ensures i == 0 ==> r[0] == s[0]
    ensures var c := PairCorrection(s[i].currentPosition, s[i + 1].currentPosition, segLength, mag, i == 0);
      r[i].currentPosition == c.0 && r[i + 1].currentPosition == c.1
  {
    var c := PairCorrection(s[i].currentPosition, s[i + 1].currentPosition, segLength, mag, i == 0);
    if i != 0 then
      s[i := RopeSegment(c.0, s[i].previousPosition)][i + 1 := RopeSegment(c.1, s[i + 1].previousPosition)]
    else
      s[i + 1 := RopeSegment(c.1, s[i + 1].previousPosition)]
  }

  /** The pair steps i, i+1, ..., |s|-2, applied in order. */
  function RelaxFrom(s: seq<RopeSegment>, i: nat, segLength: real, mag: Vec2 -> real): seq<RopeSegment>
    decreases |s| - i
  {
    if i + 1 >= |s| then s
    else RelaxFrom(RelaxPair(s, i, segLength, mag), i + 1, segLength, mag)
  }

  /** One ApplyConstraint: pin segment 0 to the anchor, then relax every
      adjacent pair from the anchor end. */
  function ConstraintPass(s: seq<RopeSegment>, anchor: Vec2, segLength: real, mag: Vec2 -> real)
    : seq<RopeSegment>
    requires |s| > 0
  {
    RelaxFrom(s[0 := RopeSegment(anchor, s[0].previousPosition)], 0, segLength, mag)
  }

  /** k constraint passes in a row (none when k <= 0). */
  function Relaxations(s: seq<RopeSegment>, anchor: Vec2, segLength: real, mag: Vec2 -> real, k: int)
    : (r: seq<RopeSegment>)
    requires |s| > 0 || k <= 0
    ensures |r| == |s|
    decreases k
  {
    if k <= 0 then s
    else
      var prev := Relaxations(s, anchor, segLength, mag, k - 1);
      ConstraintPassSpec(prev, anchor, segLength, mag);
      ConstraintPass(prev, anchor, segLength, mag)
  }

  /** One more pass on top of k passes. */
  lemma RelaxationsNext(s: seq<RopeSegment>, anchor: Vec2, segLength: real, mag: Vec2 -> real, k: int)
    requires |s| > 0 && k >= 0
    ensures Relaxations(s, anchor, segLength, mag, k + 1)
         == ConstraintPass(Relaxations(s, anchor, segLength, mag, k), anchor, segLength, mag)
  {
  }

  /** What one Simulate does to the chain. */
  function Simulated(s: seq<RopeSegment>, gravity: Vec2, dt: real, anchor: Vec2,
                     segLength: real, mag: Vec2 -> real, passes: int): seq<RopeSegment>
    requires |s| > 0 || passes <= 0
  {
    Relaxations(Integrated(s, gravity, dt), anchor, segLength, mag, passes)
  }

  // ---------------------------------------------------------------------
  // Structural facts about the constraint pass

  /** The pair steps from i on keep the length, never touch an index
      below i (so never index 0), and never change a previous position. */
  lemma {:induction false} RelaxedFrameFacts(s: seq<RopeSegment>, i: nat, segLength: real, mag: Vec2 -> real)
    ensures |RelaxFrom(s, i, segLength, mag)| == |s|
    ensures forall k :: 0 <= k < i && k < |s| ==> RelaxFrom(s, i, segLength, mag)[k] == s[k]
    ensures i == 0 && |s| > 0 ==> RelaxFrom(s, i, segLength, mag)[0] == s[0]
    ensures forall k :: 0 <= k < |s| ==>
      RelaxFrom(s, i, segLength, mag)[k].previousPosition == s[k].previousPosition
    decreases |s| - i
  {
    if i + 1 < |s| {
      var t := RelaxPair(s, i, segLength, mag);
      RelaxedFrameFacts(t, i + 1, segLength, mag);
    }
  }

  /** After a constraint pass the chain has the same length, segment 0 is
      at the anchor, and every previous position is as before. */
  lemma ConstraintPassSpec(s: seq<RopeSegment>, anchor: Vec2, segLength: real, mag: Vec2 -> real)
    requires |s| > 0
    ensures |ConstraintPass(s, anchor, segLength, mag)| == |s|
    ensures ConstraintPass(s, anchor, segLength, mag)[0].currentPosition == anchor
    ensures forall k :: 0 <= k < |s| ==>
      ConstraintPass(s, anchor, segLength, mag)[k].previousPosition == s[k].previousPosition
  {
    RelaxedFrameFacts(s[0 := RopeSegment(anchor, s[0].previousPosition)], 0, segLength, mag);
  }

  /** Any positive number of passes leaves segment 0 at the anchor and all
      previous positions untouched. */
  lemma {:induction false} RelaxationsSpec(s: seq<RopeSegment>, anchor: Vec2, segLength: real,
                                         mag: Vec2 -> real, k: int)
    requires |s| > 0 || k <= 0
    ensures k >= 1 ==> Relaxations(s, anchor, segLength, mag, k)[0].currentPosition == anchor
    ensures forall j :: 0 <= j < |s| ==>
      Relaxations(s, anchor, segLength, mag, k)[j].previousPosition == s[j].previousPosition
    decreases k
  {
    if k > 0 {
      var prev := Relaxations(s, anchor, segLength, mag, k - 1);
      RelaxationsSpec(s, anchor, segLength, mag, k - 1);
      ConstraintPassSpec(prev, anchor, segLength, mag);
    }
  }

  /** After Simulate (with at least one pass) segment 0 is at the anchor;
      the previous position of each integrated segment is its old current
      position, and the last keeps its old previous position. */
  lemma SimulatedSpec(s: seq<RopeSegment>, gravity: Vec2, dt: real, anchor: Vec2,
                      segLength: real, mag: Vec2 -> real, passes: int)
    requires |s| > 0 || passes <= 0
    ensures |Simulated(s, gravity, dt, anchor, segLength, mag, passes)| == |s|
    ensures passes >= 1 ==>
      Simulated(s, gravity, dt, anchor, segLength, mag, passes)[0].currentPosition == anchor
    ensures forall i :: 0 <= i < |s| - 1 ==>
      Simulated(s, gravity, dt, anchor, segLength, mag, passes)[i].previousPosition == s[i].currentPosition
    ensures |s| > 0 ==>
      Simulated(s, gravity, dt, anchor, segLength, mag, passes)[|s| - 1].previousPosition
        == s[|s| - 1].previousPosition
  {
    RelaxationsSpec(Integrated(s, gravity, dt), anchor, segLength, mag, passes);
  }

  // ---------------------------------------------------------------------
  // Geometric facts about one pair step

  /** When the pair is already at the target separation, or the points
      coincide, the pair step changes nothing. */
  lemma PairCorrectionNoOp(first: Vec2, next: Vec2, segLength: real, mag: Vec2 -> real, anchored: bool)
    requires IsMagnitude(mag)
    requires first == next || mag(Sub(first, next)) == segLength
    ensures PairCorrection(first, next, segLength, mag, anchored) == (first, next)
  {
    var changeDir :=
      if mag(Sub(first, next)) > segLength then Normalize(Sub(first, next), mag)
      else if mag(Sub(first, next)) < segLength then Normalize(Sub(next, first), mag)
      else Zero;
    if first == next {
      assert Sub(first, next) == Zero && Sub(next, first) == Zero;
      NormalizeSpec(Zero, mag);
    }
    assert changeDir == Zero;
    ZeroCorrection(first, next, Abs(mag(Sub(first, next)) - segLength));
  }

  lemma ZeroCorrection(first: Vec2, next: Vec2, error: real)
    ensures Sub(first, Scale(Scale(Zero, error), 0.5)) == first
    ensures Add(next, Scale(Scale(Zero, error), 0.5)) == next
    ensures Add(next, Scale(Zero, error)) == next
  {
  }

  /** The split correction away from the anchor moves the two points by
      opposite amounts, so their midpoint stays where it was. */
  lemma PairCorrectionKeepsMidpoint(first: Vec2, next: Vec2, segLength: real, mag: Vec2 -> real)
    ensures var r := PairCorrection(first, next, segLength, mag, false);
      Add(r.0, r.1) == Add(first, next)
  {
    var r := PairCorrection(first, next, segLength, mag, false);
    assert Add(r.0, r.1).x == Add(first, next).x;
    assert Add(r.0, r.1).y == Add(first, next).y;
  }

  /** With distinct points, one pair step makes the pair's separation
      exactly segLength, for a too-long or a too-short pair, with the full
      or the split correction. */
  lemma PairCorrectionReachesLength(first: Vec2, next: Vec2, segLength: real, mag: Vec2 -> real,
                                    anchored: bool)
    requires IsMagnitude(mag)
    requires segLength >= 0.0
    requires first != next
    ensures var r := PairCorrection(first, next, segLength, mag, anchored);
      mag(Sub(r.0, r.1)) == segLength
  {
    var d := Sub(first, next);
    SubNonZero(first, next);
    var dist := mag(d);
    assert dist > 0.0;
    DistanceSymmetric(first, next, mag);
    CorrectionAlongPair(first, next, segLength, mag, dist);
    CorrectedOffset(first, next, segLength, mag, anchored, dist);
    ScaledToLength(mag, d, dist, segLength);
  }

  /** Away from the degenerate cases the correction vector is the pair's
      offset scaled by (dist - segLength) / dist, for a too-long and a
      too-short pair alike. */
  lemma CorrectionAlongPair(first: Vec2, next: Vec2, segLength: real, mag: Vec2 -> real, dist: real)
    requires dist > 0.0
    requires mag(Sub(first, next)) == dist && mag(Sub(next, first)) == dist
    ensures CorrectionVector(first, next, segLength, mag) == Scale(Sub(first, next), (dist - segLength) / dist)
  {
    var d := Sub(first, next);
    var error := Abs(dist - segLength);
    var f := (dist - segLength) / dist;
    CorrectionFactor(dist, segLength, error, d);
    if dist > segLength {
      ScaleTwice(d, 1.0 / dist, error);
    } else if dist < segLength {
      SubReversed(first, next);
      ScaleTwice(d, -1.0, 1.0 / dist);
      ScaleTwice(d, -1.0 / dist, error);
    } else {
      ScaleZero(d);
      assert f == 0.0;
    }
  }

  /** After the correction the pair's offset is its old offset scaled by
      segLength / dist. */
  lemma CorrectedOffset(first: Vec2, next: Vec2, segLength: real, mag: Vec2 -> real, anchored: bool, dist: real)
    requires dist > 0.0
    requires CorrectionVector(first, next, segLength, mag) == Scale(Sub(first, next), (dist - segLength) / dist)
    ensures var r := PairCorrection(first, next, segLength, mag, anchored);
      Sub(r.0, r.1) == Scale(Sub(first, next), segLength / dist)
  {
    var c := CorrectionVector(first, next, segLength, mag);
    CorrectedSeparation(first, next, c, anchored);
    ShrinkToLength(Sub(first, next), dist, segLength);
  }

  /** Scaling a vector of magnitude dist by segLength / dist gives
      magnitude segLength. */
  lemma ScaledToLength(mag: Vec2 -> real, d: Vec2, dist: real, segLength: real)
    requires IsMagnitude(mag)
    requires dist > 0.0 && segLength >= 0.0 && mag(d) == dist
    ensures mag(Scale(d, segLength / dist)) == segLength
  {
    MagnitudeOfScaled(mag, d, segLength / dist);
    ScaledLength(mag(Scale(d, segLength / dist)), segLength / dist, mag(d), dist, segLength);
  }

  lemma ScaledLength(m: real, k: real, md: real, dist: real, segLength: real)
    requires dist > 0.0 && segLength >= 0.0 && k == segLength / dist && md == dist
    requires m == Abs(k) * md
    ensures m == segLength
  {
    assert Abs(k) == k;
  }

  lemma SubNonZero(a: Vec2, b: Vec2)
    requires a != b
    ensures Sub(a, b) != Zero
  {
  }

  lemma ScaleTwice(v: Vec2, j: real, k: real)
    ensures Scale(Scale(v, j), k) == Scale(v, j * k)
  {
    assert Scale(Scale(v, j), k).x == Scale(v, j * k).x;
    assert Scale(Scale(v, j), k).y == Scale(v, j * k).y;
  }

  lemma ScaleZero(v: Vec2)
    ensures Scale(v, 0.0) == Zero
  {
  }

  lemma CorrectionFactor(dist: real, segLength: real, error: real, d: Vec2)
    requires dist > 0.0
    requires error == Abs(dist - segLength)
    ensures dist > segLength ==> Scale(d, (1.0 / dist) * error) == Scale(d, (dist - segLength) / dist)
    ensures dist < segLength ==> Scale(d, (-1.0 / dist) * error) == Scale(d, (dist - segLength) / dist)
    ensures dist == segLength ==> Scale(d, 0.0) == Scale(d, (dist - segLength) / dist)
  {
    if dist > segLength {
      assert (1.0 / dist) * error == (dist - segLength) / dist;
    } else if dist < segLength {
      assert (-1.0 / dist) * error == (dist - segLength) / dist;
    }
  }

  /** Both the split and the full correction c reduce the pair's offset by c. */
  lemma CorrectedSeparation(first: Vec2, next: Vec2, c: Vec2, anchored: bool)
    ensures !anchored ==> Sub(Sub(first, Scale(c, 0.5)), Add(next, Scale(c, 0.5))) == Sub(Sub(first, next), c)
    ensures anchored ==> Sub(first, Add(next, c)) == Sub(Sub(first, next), c)
  {
  }

  lemma ShrinkToLength(d: Vec2, dist: real, segLength: real)
    requires dist > 0.0
    ensures Sub(d, Scale(d, (dist - segLength) / dist)) == Scale(d, segLength / dist)
  {
    assert dist / dist == 1.0;
    assert (dist - segLength) / dist == dist / dist - segLength / dist;
    assert Sub(d, Scale(d, (dist - segLength) / dist)).x == Scale(d, segLength / dist).x;
    assert Sub(d, Scale(d, (dist - segLength) / dist)).y == Scale(d, segLength / dist).y;
  }

  /** The pair steps of ApplyConstraint, stated on the chain: the pair at i
      ends at separation segLength when its points were distinct, and a
      pair already at that separation is left as it was. */
  lemma RelaxPairSeparation(s: seq<RopeSegment>, i: nat, segLength: real, mag: Vec2 -> real)
    requires IsMagnitude(mag)
    requires segLength >= 0.0
    requires i + 1 < |s|
    ensures s[i].currentPosition != s[i + 1].currentPosition ==>
      Distance(RelaxPair(s, i, segLength, mag)[i].currentPosition,
               RelaxPair(s, i, segLength, mag)[i + 1].currentPosition, mag) == segLength
    ensures Distance(s[i].currentPosition, s[i + 1].currentPosition, mag) == segLength ==>
      RelaxPair(s, i, segLength, mag) == s
  {
    var a, b := s[i].currentPosition, s[i + 1].currentPosition;
    if a != b {
      PairCorrectionReachesLength(a, b, segLength, mag, i == 0);
    }
    if Distance(a, b, mag) == segLength {
      PairCorrectionNoOp(a, b, segLength, mag, i == 0);
      RelaxPairUnchanged(s, i, segLength, mag);
    }
  }

  lemma RelaxPairUnchanged(s: seq<RopeSegment>, i: nat, segLength: real, mag: Vec2 -> real)
    requires i + 1 < |s|
    requires PairCorrection(s[i].currentPosition, s[i + 1].currentPosition, segLength, mag, i == 0)
          == (s[i].currentPosition, s[i + 1].currentPosition)
    ensures RelaxPair(s, i, segLength, mag) == s
  {
    var r := RelaxPair(s, i, segLength, mag);
    assert forall k :: 0 <= k < |s| ==> r[k] == s[k];
  }

  // ---------------------------------------------------------------------
  // The rope as the engine object

  class Rope {
    const ropeSegLength: real
    const segmentLength: int
    const forceGravity: Vec2
    const constaintsToApply: int
    /** Vector2.magnitude. */
    const magnitude: Vec2 -> real
    const segments: array<RopeSegment>

    ghost predicate Valid()
      reads this
    {
      segments.Length == if segmentLength > 0 then segmentLength else 0
    }

    /** Start: build the chain downward from the start point. */
    constructor Start(ropeStartPoint: Vec2, ropeSegLength: real, segmentLength: int,
                      forceGravity: Vec2, constaintsToApply: int, magnitude: Vec2 -> real)
      ensures Valid() && fresh(segments)
      ensures this.ropeSegLength == ropeSegLength && this.segmentLength == segmentLength
      ensures this.forceGravity == forceGravity && this.constaintsToApply == constaintsToApply
      ensures this.magnitude == magnitude
      ensures segments[..] == InitialRope(ropeStartPoint, ropeSegLength, segmentLength)
    {
      var n := if segmentLength > 0 then segmentLength else 0;
      var a := new RopeSegment[n];
      var p := ropeStartPoint;
      var i := 0;
      while i < segmentLength
        invariant 0 <= i <= n
        invariant p == Vec2(ropeStartPoint.x, ropeStartPoint.y - i as real * ropeSegLength)
        invariant forall k :: 0 <= k < i ==>
          a[k] == SegmentAt(Vec2(ropeStartPoint.x, ropeStartPoint.y - k as real * ropeSegLength))
      {
        a[i] := SegmentAt(p);
        p := p.(y := p.y - ropeSegLength);
        i := i + 1;
      }
      this.ropeSegLength := ropeSegLength;
      this.segmentLength := segmentLength;
      this.forceGravity := forceGravity;
      this.constaintsToApply := constaintsToApply;
      this.magnitude := magnitude;
      segments := a;
      new;
      assert segments[..] == InitialRope(ropeStartPoint, ropeSegLength, segmentLength);
    }

    /** One physics tick: integrate, then apply the constraints
        constaintsToApply times. ApplyConstraint reads segment 0, so the
        chain must be non-empty when any pass runs. */
    method Simulate(dt: real, anchor: Vec2)
      requires Valid()
      requires segments.Length > 0 || constaintsToApply <= 0
      modifies segments
      ensures segments[..] == Simulated(old(segments[..]), forceGravity, dt, anchor,
                                        ropeSegLength, magnitude, constaintsToApply)
      ensures constaintsToApply >= 1 ==> segments[0].currentPosition == anchor
    {
      ghost var before := segments[..];
      Integrate(dt);
      ghost var integrated := segments[..];
      var j := 0;
      while j < constaintsToApply
        invariant 0 <= j
        invariant j <= constaintsToApply || j == 0
        invariant segments[..] == Relaxations(integrated, anchor, ropeSegLength, magnitude, j)
      {
        RelaxationsNext(integrated, anchor, ropeSegLength, magnitude, j);
        ApplyConstraint(anchor);
        j := j + 1;
      }
      SimulatedSpec(before, forceGravity, dt, anchor, ropeSegLength, magnitude, constaintsToApply);
    }

    /** The integration loop at the head of Simulate: a verlet step for
        every segment except the last. */
    method Integrate(dt: real)
      requires Valid()
      modifies segments
      ensures segments[..] == Integrated(old(segments[..]), forceGravity, dt)
    {
      var i := 0;
      while i < segmentLength - 1
        invariant 0 <= i <= if segmentLength > 1 then segmentLength - 1 else 0
        invariant forall k :: 0 <= k < i ==> segments[k] == VerletStep(old(segments[k]), forceGravity, dt)
        invariant forall k :: i <= k < segments.Length ==> segments[k] == old(segments[k])
      {
        var firstSegment := segments[i];
        var velocity := Sub(firstSegment.currentPosition, firstSegment.previousPosition);
        var previousPosition := firstSegment.currentPosition;
        var currentPosition := Add(Add(firstSegment.currentPosition, velocity), Scale(forceGravity, dt));
        segments[i] := RopeSegment(currentPosition, previousPosition);
        i := i + 1;
      }
      ghost var integrated := Integrated(old(segments[..]), forceGravity, dt);
      assert forall k :: 0 <= k < segments.Length ==> segments[k] == integrated[k];
    }

    /** Pin segment 0 to the anchor, then relax each adjacent pair in order. */
    method ApplyConstraint(anchor: Vec2)
      requires Valid()
      requires segments.Length > 0
      modifies segments
      ensures segments[..] == ConstraintPass(old(segments[..]), anchor, ropeSegLength, magnitude)
      ensures segments[0].currentPosition == anchor
    {
      var firstSegment := segments[0];
      segments[0] := RopeSegment(anchor, firstSegment.previousPosition);

      var i := 0;
      while i < segmentLength - 1
        invariant 0 <= i <= segments.Length - 1
        invariant RelaxFrom(segments[..], i, ropeSegLength, magnitude)
               == ConstraintPass(old(segments[..]), anchor, ropeSegLength, magnitude)
      {
        var firstSeg := segments[i];
        var nextSeg := segments[i + 1];
        ghost var current := segments[..];

        var dist := magnitude(Sub(firstSeg.currentPosition, nextSeg.currentPosition));
        var error := Abs(dist - ropeSegLength);
        var changeDir := Zero;
        if dist > ropeSegLength {
          changeDir := Normalize(Sub(firstSeg.currentPosition, nextSeg.currentPosition), magnitude);
        } else if dist < ropeSegLength {
          changeDir := Normalize(Sub(nextSeg.currentPosition, firstSeg.currentPosition), magnitude);
        }

        var changeAmount := Scale(changeDir, error);
        assert changeAmount == CorrectionVector(firstSeg.currentPosition, nextSeg.currentPosition,
                                                ropeSegLength, magnitude);
        ghost var c := PairCorrection(firstSeg.currentPosition, nextSeg.currentPosition,
                                      ropeSegLength, magnitude, i == 0);
        if i != 0 {
          segments[i] := RopeSegment(Sub(firstSeg.currentPosition, Scale(changeAmount, 0.5)), firstSeg.previousPosition);
          segments[i + 1] := RopeSegment(Add(nextSeg.currentPosition, Scale(changeAmount, 0.5)), nextSeg.previousPosition);
          assert segments[..] == current[i := RopeSegment(c.0, firstSeg.previousPosition)]
                                        [i + 1 := RopeSegment(c.1, nextSeg.previousPosition)];
        } else {
          segments[i + 1] := RopeSegment(Add(nextSeg.currentPosition, changeAmount), nextSeg.previousPosition);
          assert segments[..] == current[i + 1 := RopeSegment(c.1, nextSeg.previousPosition)];
        }
        assert segments[..] == RelaxPair(current, i, ropeSegLength, magnitude);
        i := i + 1;
      }
      ConstraintPassSpec(old(segments[..]), anchor, ropeSegLength, magnitude);
    }
  }
}
