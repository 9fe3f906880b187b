/** The bow gesture: how far the bow is drawn, and when a draw fires a
    shot. A shot fires on the first tick the draw passes the threshold
    (edge-triggered) and only when the cooldown has passed since the last
    shot. */
module Gesture {
  import opened Options
  import opened Geometry
  import opened Objects

  /** Draw strength above which the bow counts as drawn. */
  const FireThreshold: real := 0.8
  /** Seconds that must pass between two shots. */
  const Cooldown: real := 1.0
  /** Elbow-wrist distance, in pixels, of a full draw. */
  const FullDraw: real := 100.0

  /** The three right-arm landmarks, in screen pixels. */
  datatype Pose = Pose(shoulder: Point, elbow: Point, wrist: Point)

  /** What one frame brings to the fire rule: the landmarks, when the pose
      estimator found any; the elbow-wrist distance; and the two clock
      readings, the one the cooldown is checked against and the later one
      a shot is stamped with. */
  datatype Reading = Reading(pose: Option<Pose>, dist: real, now: real, stamp: real)

  /** The distance is the elbow-wrist distance, and the clock does not run
      backwards between its two readings. */
  predicate WellFormed(r: Reading) {
    (r.pose.Some? ==> IsDistance(r.dist, r.pose.value.elbow, r.pose.value.wrist)) &&
    r.now <= r.stamp
  }

  /** The state the fire rule keeps between ticks. */
  datatype Trigger = Trigger(isDrawing: bool, lastShot: real)

  /** Draw strength: the elbow-wrist distance as a fraction of a full draw,
      capped at 1, and 0 when a joint is missing. Above the threshold
      exactly when the squared distance exceeds 80 * 80. */
  function DrawPercentage(elbow: Option<Point>, wrist: Option<Point>, dist: real): (s: real)
    requires elbow.Some? && wrist.Some? ==> IsDistance(dist, elbow.value, wrist.value)
    ensures 0.0 <= s <= 1.0
    ensures elbow.None? || wrist.None? ==> s == 0.0
    ensures elbow.Some? && wrist.Some? ==>
      (s == 1.0 <==> dist >= FullDraw) &&
      (s > 0.0 <==> elbow.value != wrist.value) &&
      (s > FireThreshold <==> DistSq(elbow.value, wrist.value) > Sq(FireThreshold * FullDraw))
  {
    if elbow.Some? && wrist.Some? then
      CompareDistance(dist, elbow.value, wrist.value, FireThreshold * FullDraw);
      var ratio := dist / FullDraw;
      if 1.0 < ratio then 1.0 else ratio
    else
      0.0
  }

  /** Draw strength of a frame in which the pose was found. */
  function Strength(r: Reading): (s: real)
    requires WellFormed(r) && r.pose.Some?
    ensures 0.0 <= s <= 1.0
    ensures s > FireThreshold <==> r.dist > FireThreshold * FullDraw
  {
    DrawPercentage(Some(r.pose.value.elbow), Some(r.pose.value.wrist), r.dist)
  }

  /** This frame fires a shot. */
  predicate Fires(g: Trigger, r: Reading): (f: bool)
    requires WellFormed(r)
    ensures f ==> r.pose.Some? && r.dist > FireThreshold * FullDraw && r.now - g.lastShot > Cooldown
  {
    r.pose.Some? && Strength(r) > FireThreshold && !g.isDrawing && r.now - g.lastShot > Cooldown
  }

  /** The fire rule's state after one frame: unchanged when no pose was
      found; otherwise drawing means above the threshold, and the last shot
      time moves only when this frame fires. */
  function Next(g: Trigger, r: Reading): (n: Trigger)
    requires WellFormed(r)
    ensures r.pose.None? ==> n == g
    ensures r.pose.Some? ==> n.isDrawing == (Strength(r) > FireThreshold)
    ensures n.lastShot == (if Fires(g, r) then r.stamp else g.lastShot)
  {
    if r.pose.None? then g
    else Trigger(Strength(r) > FireThreshold, if Fires(g, r) then r.stamp else g.lastShot)
  }

  /** The fire rule in terms of the landmarks: a frame fires exactly when a
      pose is found whose elbow and wrist are more than 80 pixels apart,
      the bow was not already drawn, and more than the cooldown has passed. */
  lemma FireRule(g: Trigger, r: Reading)
    requires WellFormed(r)
    ensures Fires(g, r) <==>
      r.pose.Some? && DistSq(r.pose.value.elbow, r.pose.value.wrist) > Sq(80.0) &&
      !g.isDrawing && r.now - g.lastShot > Cooldown
  {
  }

  /** Two consecutive frames never both fire. */
  lemma NoDoubleFire(g: Trigger, r1: Reading, r2: Reading)
    requires WellFormed(r1) && WellFormed(r2)
    requires Fires(g, r1)
    ensures !Fires(Next(g, r1), r2)
  {
  }

  predicate AllWellFormed(rs: seq<Reading>) {
    forall k :: 0 <= k < |rs| ==> WellFormed(rs[k])
  }

  /** A run of frames: the final state and the stamps of the shots fired. */
  datatype Volley = Volley(final: Trigger, shots: seq<real>)

  function Run(g: Trigger, rs: seq<Reading>): (v: Volley)
    requires AllWellFormed(rs)
    ensures |v.shots| <= |rs|
    decreases |rs|
  {
    if rs == [] then Volley(g, [])
    else
      var rest := Run(Next(g, rs[0]), rs[1..]);
      Volley(rest.final, (if Fires(g, rs[0]) then [rs[0].stamp] else []) + rest.shots)
  }

  /** Each shot comes more than the cooldown after the one before it, the
      first one more than the cooldown after `last`. */
  predicate Spaced(last: real, shots: seq<real>)
    decreases |shots|
  {
    shots == [] || (shots[0] - last > Cooldown && Spaced(shots[0], shots[1..]))
  }

  lemma {:induction false} RunIsSpaced(g: Trigger, rs: seq<Reading>)
    requires AllWellFormed(rs)
    ensures Spaced(g.lastShot, Run(g, rs).shots)
    decreases |rs|
  {
    if rs != [] {
      var g' := Next(g, rs[0]);
      RunIsSpaced(g', rs[1..]);
      var shots := Run(g, rs).shots;
      var rest := Run(g', rs[1..]).shots;
      if Fires(g, rs[0]) {
        assert shots == [rs[0].stamp] + rest && g'.lastShot == rs[0].stamp;
        assert shots[1..] == rest;
      } else {
        assert shots == rest && g'.lastShot == g.lastShot;
      }
    }
  }

  /** Shots spaced one after another are also pairwise more than the
      cooldown apart, and all come more than the cooldown after `last`. */
  lemma {:induction false} SpacedApart(last: real, shots: seq<real>)
    requires Spaced(last, shots)
    ensures forall k :: 0 <= k < |shots| ==> shots[k] - last > Cooldown
    ensures forall i, j :: 0 <= i < j < |shots| ==> shots[j] - shots[i] > Cooldown
    decreases |shots|
  {
    if shots != [] {
      SpacedApart(shots[0], shots[1..]);
      forall i, j | 0 <= i < j < |shots|
        ensures shots[j] - shots[i] > Cooldown
      {
        if i > 0 {
          assert shots[j] - shots[i] == shots[1..][j - 1] - shots[1..][i - 1];
        } else {
          assert shots[j] == shots[1..][j - 1];
        }
      }
    }
  }

  /** No two shots of a run are within the cooldown of each other, and
      none is within the cooldown of the shot before the run. */
  lemma ShotsRespectCooldown(g: Trigger, rs: seq<Reading>)
    requires AllWellFormed(rs)
    ensures forall k :: 0 <= k < |Run(g, rs).shots| ==> Run(g, rs).shots[k] - g.lastShot > Cooldown
    ensures forall i, j :: 0 <= i < j < |Run(g, rs).shots| ==>
      Run(g, rs).shots[j] - Run(g, rs).shots[i] > Cooldown
  {
    RunIsSpaced(g, rs);
    SpacedApart(g.lastShot, Run(g, rs).shots);
  }

  /** The bow is held drawn (or the pose is lost) on every frame. */
  predicate Held(rs: seq<Reading>)
    requires AllWellFormed(rs)
  {
    forall k :: 0 <= k < |rs| ==> rs[k].pose.None? || Strength(rs[k]) > FireThreshold
  }

  /** Holding the bow drawn fires at most once, and not at all when it was
      already drawn before. */
  lemma {:induction false} HeldFiresOnce(g: Trigger, rs: seq<Reading>)
    requires AllWellFormed(rs) && Held(rs)
    ensures |Run(g, rs).shots| <= 1
    ensures g.isDrawing ==> Run(g, rs).shots == []
    decreases |rs|
  {
    if rs != [] {
      var g' := Next(g, rs[0]);
      assert AllWellFormed(rs[1..]) && Held(rs[1..]) by {
        forall k | 0 <= k < |rs[1..]| ensures rs[1..][k] == rs[k + 1] { }
      }
      HeldFiresOnce(g', rs[1..]);
      if Fires(g, rs[0]) || g.isDrawing {
        assert g'.isDrawing;
      }
    }
  }
}
