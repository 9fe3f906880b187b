/** The game object: its board (hearts and arrows), score, high score and
    fire-rule state, and the operations that change them in place. */
module Game {
  import opened Options
  import opened Geometry
  import opened Lists
  import opened Objects
  import opened Simulation
  import opened Gesture

  /** Chance, per frame, that the spawner is asked for a heart. */
  const SpawnChance: real := 0.02

  /** The range a spawned heart's speed is drawn from. */
  predicate SpawnSpeed(speed: real) {
    1.5 <= speed <= 3.5
  }

  /** Where and how fast the spawner may place a heart: whole-pixel x in
      [100, 540) and y in [100, 380), speed in [1.5, 3.5]. */
  predicate Spawnable(h: Heart) {
    h.x == h.x.Floor as real && h.y == h.y.Floor as real &&
    100.0 <= h.x < (ScreenWidth - 100) as real &&
    100.0 <= h.y < (ScreenHeight - 100) as real &&
    SpawnSpeed(h.speed)
  }

  class CupidsArrowGame {
    var score: int
    var hearts: seq<Heart>
    var arrows: seq<Arrow>
    var isDrawingBow: bool
    var lastShotTime: real
    var highScore: int

    /** At most MaxHearts hearts; scores are whole multiples of the reward. */
    ghost predicate Valid()
      reads this
    {
      |hearts| <= MaxHearts && 0 <= score && score % Reward == 0 && 0 <= highScore
    }

    /** The fire rule's state. */
    function FireState(): Trigger
      reads this
    {
      Trigger(isDrawingBow, lastShotTime)
    }

    /** A new game at clock time `now`: empty board, nothing scored, bow
        not drawn, and the cooldown counted from now. */
    constructor(now: real)
      ensures Valid()
      ensures score == 0 && highScore == 0 && hearts == [] && arrows == []
      ensures !isDrawingBow && lastShotTime == now
      ensures CheckGameOver()
    {
      score := 0;
      hearts := [];
      arrows := [];
      isDrawingBow := false;
      lastShotTime := now;
      highScore := 0;
    }

    /** The session ends when the board is empty, which holds for a new
        game too. */
    function CheckGameOver(): (over: bool)
      reads this
      ensures over <==> hearts == [] && arrows == []
    {
      |hearts| == 0 && |arrows| == 0
    }

    /** Adds one heart at a random place within the spawn ranges, unless
        MaxHearts hearts are live already. */
    method SpawnHeart()
      requires Valid()
      modifies this
      ensures Valid()
      ensures old(|hearts|) < MaxHearts ==>
        |hearts| == old(|hearts|) + 1 && hearts[..old(|hearts|)] == old(hearts) && Spawnable(hearts[old(|hearts|)])
      ensures old(|hearts|) >= MaxHearts ==> hearts == old(hearts)
      ensures arrows == old(arrows) && score == old(score) && highScore == old(highScore)
      ensures FireState() == old(FireState())
    {
      if |hearts| < MaxHearts {
        var x: int :| 100 <= x < ScreenWidth - 100;
        var y: int :| 100 <= y < ScreenHeight - 100;
        assert SpawnSpeed(2.5);
        var speed: real :| SpawnSpeed(speed);
        hearts := hearts + [Heart(x as real, y as real, speed)];
      }
    }

    /** Adds an arrow at `origin` flying along `direction` at ArrowSpeed;
        `norm` is the direction's length, which must not be zero. */
    method ShootArrow(origin: Point, direction: Point, norm: real)
      requires norm > 0.0 && Sq(norm) == NormSq(direction)
      modifies this
      ensures arrows == old(arrows) + [Launch(origin, direction, norm)]
      ensures hearts == old(hearts) && score == old(score) && highScore == old(highScore)
      ensures FireState() == old(FireState())
    {
      arrows := arrows + [Launch(origin, direction, norm)];
    }

    /** One simulation step in place, heart k drifting under phases[k]:
        the result is Step. */
    method UpdateGameObjects(phases: seq<real>)
      requires Valid() && |phases| == |hearts| && SinePhases(phases)
      modifies this
      ensures Valid()
      ensures hearts == Step(old(hearts), old(arrows), phases).hearts
      ensures arrows == Step(old(hearts), old(arrows), phases).arrows
      ensures score == old(score) + Reward * Step(old(hearts), old(arrows), phases).hits
      ensures highScore == old(highScore) && FireState() == old(FireState())
    {
      MoveHearts(phases);
      MoveArrows();
    }

    /** The heart half of a step. The loop walks a snapshot of the list; it
        updates the live entry at `pos` (where the snapshot's heart i now
        sits) and deletes with RemoveFirst, which deletes by value: the
        hearts before `pos` are all within the width and the one deleted is
        not, so what goes is the heart being processed. */
    method MoveHearts(phases: seq<real>)
      requires |phases| == |hearts|
      modifies this`hearts
      ensures hearts == DriftHearts(old(hearts), phases)
    {
      var snapshot := hearts;
      var pos := 0;
      var i := 0;
      while i < |snapshot|
        invariant 0 <= i <= |snapshot| && |phases| == |snapshot|
        invariant pos == |DriftHearts(snapshot[..i], phases[..i])|
        invariant hearts == DriftHearts(snapshot[..i], phases[..i]) + snapshot[i..]
      {
        DriftOne(snapshot, phases, i);
        var heart := Drift(snapshot[i], phases[i]);
        hearts := hearts[pos := heart];
        if heart.x < 0.0 || heart.x > ScreenWidth as real {
          hearts := RemoveFirst(hearts, heart);
        } else {
          pos := pos + 1;
        }
        i := i + 1;
      }
      assert snapshot[..i] == snapshot && phases[..i] == phases;
    }

    /** The arrow half of a step. The loop walks a snapshot of the arrows,
        `apos` being where the snapshot's arrow j now sits in the live list;
        FlyArrow plays arrow j's turn. */
    method MoveArrows()
      modifies this`hearts, this`arrows, this`score
      ensures hearts == ResolveArrows(old(arrows), old(hearts)).hearts
      ensures arrows == ResolveArrows(old(arrows), old(hearts)).arrows
      ensures score == old(score) + Reward * ResolveArrows(old(arrows), old(hearts)).hits
    {
      ghost var drifted := hearts;
      var volley := arrows;
      var apos := 0;
      var j := 0;
      while j < |volley|
        invariant 0 <= j <= |volley|
        invariant hearts == ResolveArrows(volley[..j], drifted).hearts
        invariant arrows == ResolveArrows(volley[..j], drifted).arrows + volley[j..]
        invariant apos == |ResolveArrows(volley[..j], drifted).arrows|
        invariant score == old(score) + Reward * ResolveArrows(volley[..j], drifted).hits
      {
        apos := FlyArrow(volley, drifted, j, apos);
        j := j + 1;
      }
      assert volley[..j] == volley;
    }

    /** Arrow j's turn, its earlier arrows done: it flies, its entry at
        `apos` is updated, and a walk over a snapshot of the hearts stops
        at the first one it touches. Deleting by value takes out the right
        entries: no arrow kept so far touches a live heart nor is off the
        screen, while the one deleted does one or the other. */
    method FlyArrow(volley: seq<Arrow>, ghost drifted: seq<Heart>, j: nat, apos: nat) returns (apos': nat)
      requires j < |volley|
      requires hearts == ResolveArrows(volley[..j], drifted).hearts
      requires arrows == ResolveArrows(volley[..j], drifted).arrows + volley[j..]
      requires apos == |ResolveArrows(volley[..j], drifted).arrows|
      modifies this`hearts, this`arrows, this`score
      ensures hearts == ResolveArrows(volley[..j + 1], drifted).hearts
      ensures arrows == ResolveArrows(volley[..j + 1], drifted).arrows + volley[j + 1..]
      ensures apos' == |ResolveArrows(volley[..j + 1], drifted).arrows|
      ensures score == old(score) + Reward * (ResolveArrows(volley[..j + 1], drifted).hits - ResolveArrows(volley[..j], drifted).hits)
    {
      ghost var b := ResolveArrows(volley[..j], drifted);
      ResolvedArrowsClear(volley[..j], drifted);
      apos' := apos;
      var arrow := Advance(volley[j]);
      ReplaceAfter(b.arrows, volley[j..], arrow);
      arrows := arrows[apos := arrow];
      assert volley[j..][1..] == volley[j + 1..];
      var targets := hearts;
      var k := 0;
      while k < |targets|
        invariant 0 <= k <= |targets|
        invariant forall t :: 0 <= t < k ==> !Hits(arrow, targets[t])
        invariant hearts == targets && arrows == b.arrows + [arrow] + volley[j + 1..] && score == old(score)
      {
        if Hits(arrow, targets[k]) {
          ArrowHitStep(volley, drifted, j, k);
          score := score + Reward;
          RemoveFirstAt(hearts, targets[k], k);
          hearts := RemoveFirst(hearts, targets[k]);
          RemoveFirstAfter(b.arrows, arrow, volley[j + 1..]);
          arrows := RemoveFirst(arrows, arrow);
          return;
        }
        k := k + 1;
      }
      // no heart was hit: the arrow stays unless it has left the screen
      ArrowMissStep(volley, drifted, j);
      if arrow.x < 0.0 || arrow.x > ScreenWidth as real || arrow.y < 0.0 || arrow.y > ScreenHeight as real {
        RemoveFirstAfter(b.arrows, arrow, volley[j + 1..]);
        arrows := RemoveFirst(arrows, arrow);
      } else {
        apos' := apos + 1;
      }
    }

    /** The fire block of one frame: when a pose is found, measure the
        draw, fire when the rule says so (the arrow leaves the shoulder
        along elbow to wrist), and remember whether the bow is drawn. */
    method AimAndFire(r: Reading) returns (fired: bool)
      requires WellFormed(r)
      modifies this
      ensures fired == Fires(old(FireState()), r)
      ensures FireState() == Next(old(FireState()), r)
      ensures fired ==> r.dist > 0.0 && NormSq(Sub(r.pose.value.wrist, r.pose.value.elbow)) == Sq(r.dist)
      ensures arrows == old(arrows) +
        (if fired then [Launch(r.pose.value.shoulder, Sub(r.pose.value.wrist, r.pose.value.elbow), r.dist)] else [])
      ensures hearts == old(hearts) && score == old(score) && highScore == old(highScore)
    {
      fired := false;
      if r.pose.Some? {
        var pose := r.pose.value;
        var drawPercentage := DrawPercentage(Some(pose.elbow), Some(pose.wrist), r.dist);
        if drawPercentage > FireThreshold && !isDrawingBow && r.now - lastShotTime > Cooldown {
          var direction := Sub(pose.wrist, pose.elbow);
          ShootArrow(pose.shoulder, direction, r.dist);
          lastShotTime := r.stamp;
          fired := true;
        }
        isDrawingBow := drawPercentage > FireThreshold;
      }
    }

    /** At game over the high score becomes the larger of itself and the
        score; otherwise nothing changes. */
    method RecordGameOver() returns (over: bool)
      requires Valid()
      modifies this
      ensures Valid()
      ensures over <==> hearts == [] && arrows == []
      ensures over ==> highScore >= old(highScore) && highScore >= score &&
                       (highScore == old(highScore) || highScore == score)
      ensures !over ==> highScore == old(highScore)
      ensures score == old(score) && hearts == old(hearts) && arrows == old(arrows)
      ensures FireState() == old(FireState())
    {
      over := CheckGameOver();
      if over {
        highScore := if highScore < score then score else highScore;
      }
    }

    /** One frame of play: the fire block, the spawner (asked with chance
        SpawnChance), the simulation step with one sine value per heart, and
        the game-over check. `spawned` is the heart the spawner added, if
        any, and `phases` the sine values the step used; the new board is
        then Step of the old one with the shot and the spawned heart added. */
    method Tick(r: Reading) returns (fired: bool, over: bool, ghost spawned: Option<Heart>, phases: seq<real>)
      requires Valid() && WellFormed(r)
      modifies this
      ensures Valid()
      ensures fired == Fires(old(FireState()), r)
      ensures FireState() == Next(old(FireState()), r)
      ensures fired ==>
        r.pose.Some? && r.dist > 0.0 && NormSq(Sub(r.pose.value.wrist, r.pose.value.elbow)) == Sq(r.dist)
      ensures spawned.Some? ==> old(|hearts|) < MaxHearts && Spawnable(spawned.value)
      ensures |phases| == old(|hearts|) + (if spawned.Some? then 1 else 0) && SinePhases(phases)
      ensures var shot := if fired then [Launch(r.pose.value.shoulder, Sub(r.pose.value.wrist, r.pose.value.elbow), r.dist)] else [];
        var b := Step(old(hearts) + (if spawned.Some? then [spawned.value] else []), old(arrows) + shot, phases);
        hearts == b.hearts && arrows == b.arrows && score == old(score) + Reward * b.hits
      ensures score >= old(score)
      ensures over <==> hearts == [] && arrows == []
      ensures over ==> highScore >= old(highScore) && highScore >= score &&
                       (highScore == old(highScore) || highScore == score)
      ensures !over ==> highScore == old(highScore)
    {
      fired := AimAndFire(r);
      ghost var shot := if fired then [Launch(r.pose.value.shoulder, Sub(r.pose.value.wrist, r.pose.value.elbow), r.dist)] else [];
      ghost var armed := arrows;
      ghost var before := hearts;
      assert armed == old(arrows) + shot && before == old(hearts);
      spawned := None;
      var roll: real :| 0.0 <= roll < 1.0;
      if roll < SpawnChance {
        SpawnHeart();
        if |hearts| > |before| {
          spawned := Some(hearts[|before|]);
          assert hearts == before + [hearts[|before|]];
        }
      }
      ghost var still := seq(|hearts|, k => 0.0);
      assert |still| == |hearts| && SinePhases(still);
      phases :| |phases| == |hearts| && SinePhases(phases);
      assert hearts == before + (if spawned.Some? then [spawned.value] else []) && arrows == armed;
      ghost var b := Step(hearts, arrows, phases);
      UpdateGameObjects(phases);
      assert hearts == b.hearts && arrows == b.arrows && score == old(score) + Reward * b.hits;
      over := RecordGameOver();
    }
  }
}
