# Cupid's Arrow: a verified model of the game state

Cupid's Arrow is a webcam game. The player draws a bow with their right arm. A pose estimator supplies the shoulder, elbow and wrist. A full enough draw fires an arrow from the shoulder along the elbow-to-wrist line. Arrows fly across a 640 x 480 screen. An arrow that comes within 25 pixels of a heart takes out the first such heart, in list order, scores 10 points and is spent.

This project models the game-state class `CupidsArrowGame` in Dafny:

- **The spawner.** It adds one heart at a random position and speed, but never more than 5 hearts.
- **The simulation step.**
  - First, every heart drifts sideways by a sine value times its speed. A heart that leaves the screen's width is removed.
  - Then every arrow, in list order, flies one tick. It takes out itself and the first heart, in list order, within 25 pixels.
  - An arrow that touches nothing is removed only once it is off the screen.
  - Both loops walk a snapshot of the list while deleting from the live list.
- **The shot.** The direction is normalised and scaled to speed 10.
- **The fire rule.**
  - The draw strength is `min(dist(elbow, wrist) / 100, 1)`.
  - A shot fires only on the frame where the strength first rises above 0.8 (edge-triggered).
  - It also needs more than 1 second since the last shot.
- **Game over and the high score.** The game is over when there are no hearts and no arrows, and the high score then becomes the larger of itself and the score.

The model has seven modules:

- **Geometry**: points and squared distances.
- **Lists**: Python's `list.remove` and subsequence witnesses.
- **Objects**: hearts, arrows, the per-object rules and the shot.
- **Simulation**: the simulation step as pure functions, with its properties.
- **Gesture**: the draw strength and the fire rule, with its properties over runs of frames.
- **Game**: the class, whose methods update its fields in place as the Python methods do.
- **Options**: a small Option type.

`UpdateGameObjects` runs the two snapshot loops of the original over `seq` fields. Deleting by value goes through `RemoveFirst`. The method is proved to leave exactly the board that the pure function `Simulation.Step` describes. Deleting by value always takes out the entry being processed:

- every heart kept before it is within the width, while the deleted one is not;
- every arrow kept before it is on the screen and touches no live heart, while the deleted one is off the screen or touches a heart.

Square roots are avoided. The elbow-wrist distance enters as a value `dist` with `dist >= 0` and `dist * dist` equal to the squared distance. The hit test compares squared distances with `25 * 25`. `Geometry.CompareDistance` shows that both comparisons agree with comparisons of true distances.

A new game is already over, because both lists start empty. The session ends after the first frame whose step leaves both lists empty. That is the first frame, unless it spawns a heart or fires an arrow that stays on the screen. The model keeps this behaviour: `Game.CupidsArrowGame.constructor` ensures `CheckGameOver()`.

Two details of the code that the model keeps:

- **A frame without a pose leaves the fire state untouched.** The line that updates `is_drawing_bow` (CupidsArrowGame.py:139) is inside the `if results.pose_landmarks:` block. Losing the pose for a frame does not re-arm the trigger, as a strength of 0 would.
- **The sine value is read once per heart.** `datetime.now()` is read anew for every heart (CupidsArrowGame.py:52), so hearts need not share one phase. The model takes one sine value per heart, which includes the shared-phase case.

## Model

| member | source | states |
|---|---|---|
| Game.CupidsArrowGame.constructor | CupidsArrowGame.py:9-22 | A new game has score 0, high score 0, empty heart and arrow lists, the bow not drawn, the cooldown counted from the start time, and is already over by the game-over test |
| Game.CupidsArrowGame.CheckGameOver | CupidsArrowGame.py:107-108 | The game is over exactly when both the heart list and the arrow list are empty |
| Game.CupidsArrowGame.SpawnHeart | CupidsArrowGame.py:24-29 | With fewer than 5 hearts, exactly one heart is appended: whole-pixel x in [100, 540), whole-pixel y in [100, 380), speed in [1.5, 3.5]; the hearts already present are unchanged. With 5 hearts nothing changes. The heart count never exceeds 5, and arrows, score and fire state are untouched |
| Game.CupidsArrowGame.ShootArrow | CupidsArrowGame.py:42-48 | Appends exactly the arrow `Launch` builds (start at origin, velocity the direction scaled to length 10); nothing else changes |
| Objects.Launch | CupidsArrowGame.py:42-48 | The arrow starts at the origin; its velocity times the direction's length equals 10 times the direction, so it points along the direction; the squared speed is 100. The direction must be non-zero |
| Game.CupidsArrowGame.UpdateGameObjects | CupidsArrowGame.py:50-68 | The new hearts and arrows are those of `Step` on the old ones. The score grows by 10 per hit. The heart bound and the score's divisibility by 10 are kept. High score and fire state are unchanged |
| Game.CupidsArrowGame.MoveHearts | CupidsArrowGame.py:51-54 | The snapshot loop that drifts each heart in place and deletes it by value when it has left the width leaves exactly `DriftHearts` of the old list |
| Game.CupidsArrowGame.MoveArrows | CupidsArrowGame.py:56-68 | The snapshot loop over the arrows leaves exactly the hearts, arrows and added score of `ResolveArrows` on the old lists |
| Game.CupidsArrowGame.FlyArrow | CupidsArrowGame.py:57-68 | One arrow's turn in place: it flies; the inner snapshot loop stops at the first heart within 25 and deletes that heart and the arrow by value, adding 10 points; with no hit it deletes the arrow by value only if it is off the screen. The result is the arrow's turn in `ResolveArrows` |
| Lists.RemoveFirst | CupidsArrowGame.py:54 | Python's `list.remove`: the first element equal to the value is taken out, and the list is one shorter |
| Lists.RemoveFirstAt | CupidsArrowGame.py:62-63 | Deleting a value by equality removes position k whenever no earlier element equals it |
| Lists.RemoveFirstAfter | CupidsArrowGame.py:68 | Deleting a value by equality from `done + [v] + rest`, where no element of `done` equals v, leaves `done + rest` |
| Simulation.DriftHearts | CupidsArrowGame.py:51-54 | The drifted hearts that are still within [0, 640]: never more than before, all within the width |
| Simulation.DriftOne | CupidsArrowGame.py:52-54 | One heart's turn on the live list (overwrite its entry, delete it by value when out of the width) extends the drifted prefix by exactly that heart's outcome |
| Simulation.DriftSurvivors | CupidsArrowGame.py:51-54 | Heart i is kept if and only if its drifted x is within [0, 640]; the kept hearts are the drifted ones in their old order; each keeps its y and its speed |
| Objects.FirstHit | CupidsArrowGame.py:59-64 | The first heart, in list order, within 25 of the arrow: it is hit and no earlier heart is; None exactly when no heart is hit |
| Simulation.ResolveArrows | CupidsArrowGame.py:56-68 | All arrows' turns in list order against the hearts the earlier arrows left: hearts left plus hits equal the hearts before, and arrows left plus hits are at most the arrows before |
| Simulation.ResolvedArrowsClear | CupidsArrowGame.py:56-68 | After the arrows' turns every surviving arrow is on the screen and touches no surviving heart |
| Simulation.ArrowHitStep | CupidsArrowGame.py:59-64 | An arrow that touches heart k and no earlier heart removes exactly heart k and itself, and adds one hit; the other arrows are unchanged |
| Simulation.ArrowMissStep | CupidsArrowGame.py:65-68 | An arrow that touches no heart stays, flown, if and only if it is on the screen, and is dropped otherwise; hearts and hits are unchanged |
| Simulation.Step | CupidsArrowGame.py:50-68 | A whole step: neither list grows, and there are never more hits than hearts or than arrows |
| Simulation.ArrowSurvivors | CupidsArrowGame.py:56-68 | Arrow i survives if and only if, after flying, it touches none of the hearts the earlier arrows left and is on the screen. Survivors are the flown arrows, position plus velocity with velocity unchanged, in their old order. An arrow that hits is removed even when off the screen |
| Simulation.ArrowScorers | CupidsArrowGame.py:59-61 | The hit count equals the number of arrows that, after flying, touch a heart the earlier arrows left, so the score grows by exactly 10 times that number |
| Simulation.ArrowsKeepHeartOrder | CupidsArrowGame.py:59-64 | The hearts left by the arrows are a subsequence, in order, of the hearts before. Together with hearts left plus hits equalling hearts before, each hit removes a different heart, and a heart taken by one arrow is never credited to another |
| Simulation.StepKeepsHeartOrder | CupidsArrowGame.py:51-64 | Over a whole step the hearts left are drifted originals, in their old order |
| Simulation.OneHeartTwoArrows | CupidsArrowGame.py:56-64 | Two identical arrows at one heart: the first takes it and scores once; the second finds it gone and flies on |
| Geometry.DistSq | CupidsArrowGame.py:60 | The squared distance is non-negative and positive exactly when the points differ |
| Geometry.CompareDistance | CupidsArrowGame.py:60 | For a true distance d and a bound r >= 0: d < r if and only if the squared distance is below r * r, d > r if and only if it is above, and d > 0 if and only if the points differ |
| Gesture.DrawPercentage | CupidsArrowGame.py:31-40 | The strength lies in [0, 1]. It is 0 when a joint is missing. With both joints it is 1 if and only if the distance is at least 100, positive if and only if the joints differ, and above 0.8 if and only if the squared distance exceeds 80 * 80 |
| Objects.Drift | CupidsArrowGame.py:52 | A heart's drift moves only its x: y and speed are kept |
| Objects.DriftBound | CupidsArrowGame.py:52 | Under a sine value in [-1, 1], a heart with non-negative speed moves sideways by at most its speed |
| Objects.InWidth | CupidsArrowGame.py:53 | A heart's x is within the width when it is neither below 0 nor above 640 |
| Objects.Advance | CupidsArrowGame.py:57-58 | One tick of flight moves the tip by exactly the velocity and keeps the velocity |
| Objects.OnScreen | CupidsArrowGame.py:66-67 | An arrow is on the screen when its x is in [0, 640] and its y in [0, 480] |
| Objects.Hits | CupidsArrowGame.py:60 | The touch test: the squared distance from tip to heart centre is below 25 * 25 |
| Objects.HitRule | CupidsArrowGame.py:60 | For the true distance d between tip and heart centre, the arrow hits exactly when d < 25 |
| Simulation.ArrowStep | CupidsArrowGame.py:57-68 | One arrow's turn on a board: fly, then remove the first heart touched and the arrow, adding a hit; with no touch, keep the flown arrow if it is on the screen |
| Simulation.ArrowTurn | CupidsArrowGame.py:57-68 | A turn adds zero or one hit, and one exactly when the flown arrow touches a heart. A scoring turn removes one heart and spends the arrow. A non-scoring turn leaves the hearts alone and keeps the flown arrow exactly when it is on the screen |
| Gesture.Strength | CupidsArrowGame.py:131 | The strength of a frame with a pose is in [0, 1], and above 0.8 exactly when the elbow-wrist distance is above 80 |
| Gesture.Fires | CupidsArrowGame.py:133-134 | The fire test: a pose is found, the strength is above 0.8, the bow was not drawn and more than 1 second has passed. A firing frame has a pose, elbow and wrist more than 80 apart, and more than 1 second since the last shot |
| Gesture.Next | CupidsArrowGame.py:131-139 | With no pose the fire state is unchanged. Otherwise "drawing" becomes exactly strength > 0.8, and the last-shot time moves to the shot's time stamp if and only if this frame fires |
| Gesture.FireRule | CupidsArrowGame.py:133-134 | A frame fires if and only if a pose is found with elbow and wrist more than 80 pixels apart, the bow was not already drawn, and more than 1 second has passed since the last shot |
| Gesture.NoDoubleFire | CupidsArrowGame.py:133-139 | After a frame that fires, the next frame cannot fire |
| Gesture.Run | CupidsArrowGame.py:114-139 | A run of frames fires at most one shot per frame |
| Gesture.RunIsSpaced | CupidsArrowGame.py:133-137 | Over a run of frames each shot's time stamp is more than 1 second after the previous shot's |
| Gesture.ShotsRespectCooldown | CupidsArrowGame.py:133-137 | No two shots of a run are within 1 second of each other, and none is within 1 second of the last shot before the run |
| Gesture.HeldFiresOnce | CupidsArrowGame.py:133-139 | While the bow is held drawn (or the pose is lost) on every frame, at most one shot fires, and none if it was already drawn at the start |
| Game.CupidsArrowGame.AimAndFire | CupidsArrowGame.py:131-139 | Fires exactly when `Gesture.Fires` says so, and the fire state becomes `Gesture.Next`. A shot appends the arrow launched from the shoulder along wrist minus elbow, whose length is the measured distance, which is positive; otherwise the arrows are unchanged. Hearts and scores are untouched |
| Game.CupidsArrowGame.RecordGameOver | CupidsArrowGame.py:169-170 | At game over the high score becomes the larger of the old high score and the score; otherwise it is unchanged |
| Game.CupidsArrowGame.Tick | CupidsArrowGame.py:131-170 | One frame: fire block, 2% spawner, step, game-over check. It returns the heart the spawner added, if any, and the sine values used. That heart lies in the spawn ranges and is added only below 5 hearts. The new hearts, arrows and score are exactly `Step` of the old board with the shot's arrow and the spawned heart appended, plus 10 points per hit. The invariant is kept and the score never decreases. The fire state follows `Gesture.Next`, `over` is exactly "both lists empty", and the high score follows the game-over rule |

## Left out

- Drawing and windows are not modelled; they are pure output. This covers the bow arc, the heart and arrow shapes, blending, the score and timer text, the welcome screen, `imshow`, `waitKey` and the quit key.
- The game-over message printed to the console (CupidsArrowGame.py:171) is not modelled; it is output only.
- Camera capture and release, the unused `heart.png` sprite, and the start time used only by the timer display are not modelled.
- MediaPipe pose estimation and the landmark-to-pixel conversion (CupidsArrowGame.py:121-129) are not modelled. A frame's landmarks arrive as an optional `Pose` in a `Reading`.
- `math.dist` and `np.linalg.norm` are not computed. The distance is an input `dist` that satisfies `dist >= 0` and `dist * dist` = squared distance.
- Floating-point rounding is not modelled: coordinates, speeds and times are mathematical reals.
- `datetime.now()` is not modelled. The two clock readings of the fire block (the cooldown check, then the new last-shot time) are inputs `now <= stamp` of a `Reading`.
- `math.sin` is not modelled. The sine values are inputs in [-1, 1], one per heart.
- Random draws are nondeterministic choices within their ranges, with no probabilities. This covers the spawn position and speed and the 2% spawn gate.
- Game.CupidsArrowGame.SpawnHeart: `np.random.uniform(1.5, 3.5)` is taken as any speed in the closed interval [1.5, 3.5], because floating-point rounding can reach the upper end.
- Hearts and arrows are values (datatypes) in `seq` fields, not shared dictionaries. An in-place update of an entry is modelled as replacing the entry at the position where it now sits in the live list. Deletion goes by value equality, as Python's `list.remove` does for dictionaries; object identity and aliasing are not modelled.
- Objects.Launch and Game.CupidsArrowGame.ShootArrow require a non-zero direction. With a zero direction the original divides by zero and builds an arrow with NaN velocity. That case cannot arise from the fire block: a strength above 0.8 means the elbow and wrist are more than 80 pixels apart.
- Game.CupidsArrowGame.Tick leaves the loop's `break` on game over and on the quit key to its caller: it returns `over` and models one frame.
