/** The oncoming vehicles: where a lane is, what an obstacle looks like, and the rectangle test. */
module Obstacles {
  import opened Config
  import opened Filtering

  /**
   * The x-coordinate the game calls the centre of a lane. Lane 0's "centre"
   * lies left of the road, and no lane's centre is at the middle of the
   * rightmost strip of the road.
   */
  function LaneCenter(lane: int): (c: int)
    ensures c == 150 + 100 * lane
    ensures RoadLeft <= c <==> 1 <= lane
    ensures RoadLeft <= c < RoadRight <==> 1 <= lane <= LaneCount
  {
    RoadLeft + lane * LaneWidth - LaneWidth / 2
  }

  /** An axis-aligned rectangle, as java.awt.Rectangle: corner (x, y), size width x height. */
  datatype Rect = Rect(x: int, y: int, width: int, height: int)

  /** java.awt.Rectangle.intersects: both rectangles non-empty and their interiors overlap. */
  predicate Intersects(a: Rect, b: Rect) {
    && a.width > 0 && a.height > 0 && b.width > 0 && b.height > 0
    && b.x < a.x + a.width && a.x < b.x + b.width
    && b.y < a.y + a.height && a.y < b.y + b.height
  }

  /** The pixel (px, py) lies in r; the right and bottom edges are outside. */
  predicate Covers(r: Rect, px: int, py: int) {
    r.x <= px < r.x + r.width && r.y <= py < r.y + r.height
  }

  /** Two rectangles intersect exactly when they share a pixel: touching edges do not count. */
  lemma IntersectsIffSharedPixel(a: Rect, b: Rect)
    ensures Intersects(a, b) <==> exists px, py :: Covers(a, px, py) && Covers(b, px, py)
  {
    if Intersects(a, b) {
      var px := if a.x < b.x then b.x else a.x;
      var py := if a.y < b.y then b.y else a.y;
      assert Covers(a, px, py) && Covers(b, px, py);
    }
  }

  /** kind 0 is a car, 1 a truck, 2 a sports car; color indexes the five-colour palette. */
  datatype Obstacle = Obstacle(x: int, y: int, width: int, height: int, lane: int, kind: int, color: int)

  /** Width and height by kind. A kind outside 0..2 falls through the switch and keeps size 0 x 0. */
  function Size(kind: int): (wh: (int, int))
    ensures 0 <= kind < KindCount <==> wh.0 > 0 && wh.1 > 0
    ensures 45 <= wh.0 <= 60 || wh == (0, 0)
    ensures wh.1 <= 100
  {
    if kind == 0 then (50, 80)
    else if kind == 1 then (60, 100)
    else if kind == 2 then (45, 70)
    else (0, 0)
  }

  /** The obstacle the constructor builds for a lane, a height and the drawn kind and colour. */
  function NewObstacle(lane: int, y: int, kind: int, color: int): (o: Obstacle)
    ensures o.x == 125 + 100 * lane && o.y == y
    ensures o.lane == lane && o.kind == kind && o.color == color
    ensures (o.width, o.height) == Size(kind)
  {
    var wh := Size(kind);
    Obstacle(LaneCenter(lane) - LaneOffset, y, wh.0, wh.1, lane, kind, color)
  }

  /** An obstacle as the constructor makes it, from drawn values in range. */
  predicate WellFormed(o: Obstacle) {
    && 0 <= o.lane < LaneCount && 0 <= o.kind < KindCount && 0 <= o.color < PaletteSize
    && o == NewObstacle(o.lane, o.y, o.kind, o.color)
  }

  /** A well-formed obstacle between its spawn height and the bottom of the screen. */
  predicate Placed(o: Obstacle) {
    WellFormed(o) && SpawnY <= o.y <= Height
  }

  function Bounds(o: Obstacle): Rect {
    Rect(o.x, o.y, o.width, o.height)
  }

  function PlayerRect(playerX: int): Rect {
    Rect(playerX, PlayerY, PlayerWidth, PlayerHeight)
  }

  /** The player's car at playerX overlaps o. */
  predicate Hits(playerX: int, o: Obstacle) {
    Intersects(PlayerRect(playerX), Bounds(o))
  }

  /** Some obstacle of the list overlaps the player's car. */
  predicate Collides(playerX: int, obs: seq<Obstacle>) {
    exists j :: 0 <= j < |obs| && Hits(playerX, obs[j])
  }

  /**
   * Every obstacle lies between x = 125 and x = 485: lane 0 is entirely left
   * of the road and the road's rightmost 115 pixels are never occupied.
   */
  lemma ObstacleSpan(o: Obstacle)
    requires WellFormed(o)
    ensures 125 <= o.x && o.x + o.width <= 485
    ensures o.lane == 0 ==> o.x + o.width < RoadLeft
  {
    assert o.x == 125 + 100 * o.lane;
  }

  /** A car whose left edge is at 485 or further right is never hit. */
  lemma RightOfObstacles(playerX: int, obs: seq<Obstacle>)
    requires playerX >= 485
    requires forall o <- obs :: WellFormed(o)
    ensures !Collides(playerX, obs)
  {
    forall j | 0 <= j < |obs|
      ensures !Hits(playerX, obs[j])
    {
      ObstacleSpan(obs[j]);
    }
  }

  /** A lane-0 obstacle never hits a car whose left edge is right of 185. */
  lemma LaneZeroHarmless(playerX: int, o: Obstacle)
    requires WellFormed(o) && o.lane == 0 && playerX > 185
    ensures !Hits(playerX, o)
  {
    ObstacleSpan(o);
  }

  /** The obstacle after moving down by speed. */
  function Moved(o: Obstacle, speed: int): Obstacle {
    o.(y := o.y + speed)
  }

  function MoveBy(speed: int): Obstacle -> Obstacle {
    o => Moved(o, speed)
  }

  /** Still on screen: not yet below the bottom edge. */
  predicate OnScreen(o: Obstacle) {
    o.y <= Height
  }

  /** The obstacles left after every one moves down by speed and those below the screen go. */
  function Survivors(obs: seq<Obstacle>, speed: int): seq<Obstacle> {
    MapFilter(obs, MoveBy(speed), OnScreen)
  }

  /** How many obstacles leave the screen when all move down by speed. */
  function Exits(obs: seq<Obstacle>, speed: int): nat {
    Dropped(obs, MoveBy(speed), OnScreen)
  }

  /**
   * Advancing by speed moves every obstacle down by exactly speed, removes
   * exactly those whose new y exceeds the screen height, keeps the rest in
   * their relative order, and the exit count is what was removed.
   */
  lemma AdvanceExactly(obs: seq<Obstacle>, speed: int) returns (idx: seq<nat>)
    ensures |Survivors(obs, speed)| + Exits(obs, speed) == |obs|
    ensures |idx| == |Survivors(obs, speed)|
    ensures forall k :: 0 <= k < |idx| ==>
              idx[k] < |obs| && Survivors(obs, speed)[k] == obs[idx[k]].(y := obs[idx[k]].y + speed)
    ensures forall k, m :: 0 <= k < m < |idx| ==> idx[k] < idx[m]
    ensures forall j :: 0 <= j < |obs| ==> (j in idx <==> obs[j].y + speed <= Height)
  {
    assert obs[0..] == obs;
    KeptPlusDropped(obs, MoveBy(speed), OnScreen);
    idx := KeptIndices(obs, MoveBy(speed), OnScreen, 0);
  }

  /** Advancing keeps every survivor placed, provided the speed is not negative. */
  lemma {:induction false} SurvivorsPlaced(obs: seq<Obstacle>, speed: int)
    requires speed >= 0
    requires forall o <- obs :: Placed(o)
    ensures forall o <- Survivors(obs, speed) :: Placed(o)
    decreases |obs|
  {
    if obs != [] {
      SurvivorsPlaced(obs[1..], speed);
      var o := obs[0];
      assert o in obs;
      assert Moved(o, speed) == NewObstacle(o.lane, o.y + speed, o.kind, o.color);
      assert Survivors(obs, speed)
          == (if OnScreen(Moved(obs[0], speed)) then [Moved(obs[0], speed)] else [])
             + Survivors(obs[1..], speed);
    }
  }
  /**
   * The obstacle loop of one running tick: walking the list from its end,
   * move each obstacle down by speed and, when it has passed the bottom of
   * the screen, remove it and add the reward to the score.
   */
  method AdvanceObstacles(obs: seq<Obstacle>, speed: int, score: int)
    returns (kept: seq<Obstacle>, newScore: int)
    ensures kept == Survivors(obs, speed)
    ensures newScore == score + Reward * Exits(obs, speed)
  {
    kept, newScore := obs, score;
    var i := |obs| - 1;
    while i >= 0
      invariant -1 <= i < |obs|
      invariant kept == obs[..i + 1] + Survivors(obs[i + 1..], speed)
      invariant newScore == score + Reward * Exits(obs[i + 1..], speed)
    {
      UnfoldAt(obs, i, MoveBy(speed), OnScreen);
      assert kept[i] == obs[i];
      assert kept[..i] == obs[..i];
      assert kept[i + 1..] == Survivors(obs[i + 1..], speed);
      var o := kept[i].(y := kept[i].y + speed);
      if o.y > Height {
        kept := kept[..i] + kept[i + 1..];
        newScore := newScore + Reward;
      } else {
        kept := kept[..i] + [o] + kept[i + 1..];
      }
      i := i - 1;
    }
    assert obs[0..] == obs;
  }

  /** The collision loop: the index of the first obstacle that overlaps the car, or -1. */
  method FirstCollision(playerX: int, obs: seq<Obstacle>) returns (k: int)
    ensures -1 <= k < |obs|
    ensures k == -1 <==> !Collides(playerX, obs)
    ensures k >= 0 ==> Hits(playerX, obs[k]) && forall j :: 0 <= j < k ==> !Hits(playerX, obs[j])
  {
    k := 0;
    while k < |obs|
      invariant 0 <= k <= |obs|
      invariant forall j :: 0 <= j < k ==> !Hits(playerX, obs[j])
    {
      if Hits(playerX, obs[k]) {
        return;
      }
      k := k + 1;
    }
    k := -1;
  }
}
