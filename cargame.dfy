/**
 * The game panel as an object: the fields its routines update in place,
 * and one method per routine, each proved to leave exactly the state the
 * matching function of module Rules describes.
 */
module CarGame {
  import opened Config
  import opened Obstacles
  import opened Particles
  import Rules
  import Properties

  class Game {
    var playerX: int
    var movingLeft: bool
    var movingRight: bool
    var obstacles: seq<Obstacle>
    /** The lives of the explosion particles, in list order. */
    var particles: seq<int>
    var score: int
    var highScore: int
    var gameSpeed: int
    var gameRunning: bool
    var showingExplosion: bool
    var explosionTimer: int
    /** Whether the 16 ms timer that delivers ticks is started. */
    var timerActive: bool

    function Snapshot(): Rules.State
      reads this
    {
      Rules.State(playerX, movingLeft, movingRight, obstacles, particles, score, highScore,
                  gameSpeed, gameRunning, showingExplosion, explosionTimer, timerActive)
    }

    ghost predicate Valid()
      reads this
    {
      Rules.Valid(Snapshot())
    }

    /** The field initialisers, the car placed in lane 1, then a first session. */
    constructor ()
      ensures Valid() && Snapshot() == Rules.Launch()
    {
      playerX := LaneCenter(1);
      movingLeft, movingRight := false, false;
      obstacles, particles := [], [];
      score, highScore, gameSpeed := 0, 0, StartSpeed;
      gameRunning, showingExplosion, explosionTimer := true, false, 0;
      timerActive := false;
      new;
      StartGame();
    }

    method StartGame()
      modifies this
      ensures Snapshot() == Rules.StartGame(old(Snapshot()))
    {
      gameRunning := true;
      showingExplosion := false;
      score := 0;
      gameSpeed := StartSpeed;
      obstacles := [];
      particles := [];
      playerX := LaneCenter(1);
      // the old timer, if any, is stopped and a new one started
      timerActive := true;
    }

    /** updateGame: one running tick. */
    method UpdateGame(d: Rules.Draws)
      requires |d.burst| == BurstSize
      modifies this
      ensures Snapshot() == Rules.UpdateGame(old(Snapshot()), d)
    {
      if !gameRunning {
        return;
      }
      Advance(d);
      ghost var t := Snapshot();
      var k := FirstCollision(playerX, obstacles);
      if k >= 0 {
        CreateExplosion(d.burst);
        GameOver();
        return;
      }
      if score > 0 && score % ScoreStep == 0 {
        gameSpeed := Rules.Min(MaxSpeed, StartSpeed + score / ScoreStep);
      }
      assert Snapshot() == Rules.Resolve(t, d.burst);
    }

    /** The first part of updateGame: move the car, move and score the obstacles, maybe spawn one. */
    method Advance(d: Rules.Draws)
      modifies this
      ensures Snapshot() == Rules.Advance(old(Snapshot()), d)
    {
      var x := playerX;
      if movingLeft && x > RoadLeft {
        x := x - PlayerSpeed;
      }
      if movingRight && x < RoadRight - PlayerWidth {
        x := x + PlayerSpeed;
      }
      var obs, points := AdvanceObstacles(obstacles, gameSpeed, score);
      if d.roll == 0 {
        obs := obs + [NewObstacle(d.lane, SpawnY, d.kind, d.color)];
      }
      playerX, obstacles, score := x, obs, points;
    }

    method CreateExplosion(burst: seq<int>)
      requires |burst| == BurstSize
      modifies this
      ensures Snapshot() == Rules.CreateExplosion(old(Snapshot()), burst)
    {
      showingExplosion := true;
      explosionTimer := ExplosionTicks;
      for i := 0 to BurstSize
        invariant Snapshot() == old(Snapshot()).(showingExplosion := true, explosionTimer := ExplosionTicks,
                                                  particles := old(particles) + burst[..i])
      {
        particles := particles + [burst[i]];
      }
      assert burst[..BurstSize] == burst;
    }

    method UpdateExplosion()
      modifies this
      ensures Snapshot() == Rules.UpdateExplosion(old(Snapshot()))
    {
      explosionTimer := explosionTimer - 1;
      particles := AgeParticles(particles);
      if explosionTimer <= 0 {
        showingExplosion := false;
      }
    }

    method GameOver()
      modifies this
      ensures Snapshot() == Rules.GameOver(old(Snapshot()))
    {
      gameRunning := false;
      timerActive := false;
      if score > highScore {
        highScore := score;
      }
    }

    /** One event of the timer; once the timer is stopped, no event arrives. */
    method ActionPerformed(d: Rules.Draws)
      requires Valid() && Rules.InRange(d, gameSpeed)
      modifies this
      ensures Valid()
      ensures Snapshot() == Rules.ActionPerformed(old(Snapshot()), d)
    {
      Properties.ActionPerformedKeepsValid(Snapshot(), d);
      if !timerActive {
        return;
      }
      if gameRunning {
        UpdateGame(d);
      }
      if showingExplosion {
        UpdateExplosion();
      }
    }

    method KeyPressed(key: Rules.Key)
      requires Valid()
      modifies this
      ensures Valid()
      ensures Snapshot() == Rules.KeyPressed(old(Snapshot()), key)
    {
      Properties.KeyPressedKeepsValid(Snapshot(), key);
      match key {
        case Left => movingLeft := true;
        case Right => movingRight := true;
        case Space =>
          if !gameRunning && !showingExplosion {
            StartGame();
          }
        case OtherKey =>
      }
    }

    method KeyReleased(key: Rules.Key)
      requires Valid()
      modifies this
      ensures Valid()
      ensures Snapshot() == Rules.KeyReleased(old(Snapshot()), key)
    {
      match key {
        case Left => movingLeft := false;
        case Right => movingRight := false;
        case _ =>
      }
    }

    /** onButton: the click fell inside the restart button. */
    method MouseClicked(onButton: bool)
      requires Valid()
      modifies this
      ensures Valid()
      ensures Snapshot() == Rules.MouseClicked(old(Snapshot()), onButton)
    {
      Properties.MouseClickedKeepsValid(Snapshot(), onButton);
      if !gameRunning && !showingExplosion && onButton {
        StartGame();
      }
    }
  }
}
