/** The game's objects and the per-object rules of its simulation: the
    play-area constants, hearts and arrows, how each moves, when an arrow
    touches a heart, and how a shot becomes an arrow. */
module Objects {
  import opened Options
  import opened Geometry

  const ScreenWidth: int := 640
  const ScreenHeight: int := 480
  /** The spawner never lets the heart list grow beyond this. */
  const MaxHearts: nat := 5
  /** An arrow closer than this to a heart's centre hits it. */
  const HitRadius: real := 25.0
  /** Points for one hit. */
  const Reward: int := 10
  /** Length of an arrow's per-tick velocity. */
  const ArrowSpeed: real := 10.0

  /** A target: its centre and the speed its horizontal drift is scaled by. */
  datatype Heart = Heart(x: real, y: real, speed: real)

  /** A projectile: its tip and the displacement it makes every tick. */
  datatype Arrow = Arrow(x: real, y: real, dx: real, dy: real)

  function HeartPos(h: Heart): Point {
    Point(h.x, h.y)
  }

  function ArrowPos(a: Arrow): Point {
    Point(a.x, a.y)
  }

  /** A heart at this x has not left the screen sideways. */
  predicate InWidth(x: real) {
    !(x < 0.0 || x > ScreenWidth as real)
  }

  /** An arrow at this position has not left the screen. */
  predicate OnScreen(a: Arrow) {
    !(a.x < 0.0 || a.x > ScreenWidth as real || a.y < 0.0 || a.y > ScreenHeight as real)
  }

  /** A heart after one tick of drift under the sine value `phase`. */
  function Drift(h: Heart, phase: real): (r: Heart)
    ensures r.y == h.y && r.speed == h.speed
  {
    h.(x := h.x + phase * h.speed)
  }

  /** Under a sine value a heart moves sideways by at most its speed. */
  lemma DriftBound(h: Heart, phase: real)
    requires -1.0 <= phase <= 1.0 && 0.0 <= h.speed
    ensures h.x - h.speed <= Drift(h, phase).x <= h.x + h.speed
  {
    MulSign(1.0 - phase, h.speed);
    MulSign(1.0 + phase, h.speed);
    assert Mul(1.0 - phase, h.speed) == h.speed - phase * h.speed;
    assert Mul(1.0 + phase, h.speed) == h.speed + phase * h.speed;
  }

  /** An arrow after one tick of flight. */
  function Advance(a: Arrow): (r: Arrow)
    ensures r.dx == a.dx && r.dy == a.dy
    ensures Sub(ArrowPos(r), ArrowPos(a)) == Point(a.dx, a.dy)
  {
    a.(x := a.x + a.dx, y := a.y + a.dy)
  }

  /** The arrow's tip is within the hit radius of the heart's centre,
      compared through squares (see Geometry.CompareDistance). */
  predicate Hits(a: Arrow, h: Heart) {
    DistSq(ArrowPos(a), HeartPos(h)) < Sq(HitRadius)
  }

  /** With d the true distance between the arrow's tip and the heart's
      centre, the arrow hits exactly when d is below the hit radius. */
  lemma HitRule(a: Arrow, h: Heart, d: real)
    requires IsDistance(d, ArrowPos(a), HeartPos(h))
    ensures Hits(a, h) <==> d < HitRadius
  {
    CompareDistance(d, ArrowPos(a), HeartPos(h), HitRadius);
  }

  /** The arrow touches none of the hearts. */
  predicate Misses(a: Arrow, hs: seq<Heart>) {
    forall k :: 0 <= k < |hs| ==> !Hits(a, hs[k])
  }

  /** The first heart, in list order, that the arrow hits. */
  function FirstHit(a: Arrow, hs: seq<Heart>): (r: Option<nat>)
    ensures r.Some? ==> r.value < |hs| && Hits(a, hs[r.value]) && Misses(a, hs[..r.value])
    ensures r.None? ==> Misses(a, hs)
  {
    if hs == [] then None
    else if Hits(a, hs[0]) then Some(0)
    else match FirstHit(a, hs[1..])
      case None => None
      case Some(k) => Some(k + 1)
  }

  /** Any hit index agrees with FirstHit once no earlier heart is hit. */
  lemma FirstHitAt(a: Arrow, hs: seq<Heart>, k: nat)
    requires k < |hs| && Hits(a, hs[k])
    requires forall t :: 0 <= t < k ==> !Hits(a, hs[t])
    ensures FirstHit(a, hs) == Some(k)
  {
  }

  /** Scaling both coordinates by k scales the squared length by k * k. */
  lemma ScaledSquares(k: real, x: real, y: real)
    ensures Sq(k * x) + Sq(k * y) == Mul(Sq(k), Sq(x) + Sq(y))
  {
  }

  /** (c / n) * (c / n) * (n * n) is c * c. */
  lemma ScaleBack(k: real, n: real, c: real)
    requires n > 0.0 && k == c / n
    ensures Mul(Sq(k), Sq(n)) == Sq(c)
  {
    assert k * n == c;
  }

  /** A vector scaled by c / (its length) has length c. */
  lemma ScaledLength(v: Point, n: real, c: real)
    requires n > 0.0 && Sq(n) == NormSq(v)
    ensures Sq(v.x * (c / n)) + Sq(v.y * (c / n)) == Sq(c)
  {
    var k := c / n;
    assert Sq(v.x * k) == Sq(k * v.x) && Sq(v.y * k) == Sq(k * v.y);
    ScaledSquares(k, v.x, v.y);
    ScaleBack(k, n, c);
  }

  /** The arrow a shot creates: it starts at `origin` and flies along
      `direction` at ArrowSpeed. `norm` is the length of `direction`,
      which must not be zero. */
  function Launch(origin: Point, direction: Point, norm: real): (a: Arrow)
    requires norm > 0.0 && Sq(norm) == NormSq(direction)
    ensures ArrowPos(a) == origin
    ensures a.dx * norm == ArrowSpeed * direction.x
    ensures a.dy * norm == ArrowSpeed * direction.y
    ensures Sq(a.dx) + Sq(a.dy) == Sq(ArrowSpeed)
  {
    var unit := Point(direction.x / norm, direction.y / norm);
    ScaledLength(direction, norm, ArrowSpeed);
    assert unit.x * ArrowSpeed == direction.x * (ArrowSpeed / norm);
    assert unit.y * ArrowSpeed == direction.y * (ArrowSpeed / norm);
    Arrow(origin.x, origin.y, unit.x * ArrowSpeed, unit.y * ArrowSpeed)
  }
}
