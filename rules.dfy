/**
 * The game's state machine as values: one function per state-changing
 * routine of the game panel, the invariant every reachable state keeps, and
 * what a tick, an explosion tick, a crash and a restart do to the state.
 */
module Rules {
  import opened Config
  import opened Obstacles
  import opened Particles

  datatype Key = Left | Right | Space | OtherKey

  /** The random values one timer tick may consume; the caller draws them. */
  datatype Draws = Draws(roll: int, lane: int, kind: int, color: int, burst: seq<int>)

  /** Everything the game panel updates; particles are represented by their lives. */
  datatype State = State(
    playerX: int,
    movingLeft: bool,
    movingRight: bool,
    obstacles: seq<Obstacle>,
    particles: seq<int>,
    score: int,
    highScore: int,
    gameSpeed: int,
    gameRunning: bool,
    showingExplosion: bool,
    explosionTimer: int,
    timerActive: bool)

  /** Where the player's car starts: the "centre" of lane 1 (x = 250). */
  const StartX := LaneCenter(1)

  /** The exclusive bound of the spawn roll. */
  function SpawnBound(speed: int): (n: int)
    ensures StartSpeed <= speed <= MaxSpeed ==> 30 <= n <= 50
    ensures speed < 30 <==> n > 0
  {
    SpawnBase - speed * 2
  }

  /** The draws are values the random generator can produce at this speed. */
  predicate InRange(d: Draws, speed: int) {
    && 0 <= d.roll < SpawnBound(speed)
    && 0 <= d.lane < LaneCount && 0 <= d.kind < KindCount && 0 <= d.color < PaletteSize
    && |d.burst| == BurstSize && forall l <- d.burst :: FreshLife(l)
  }

  function Min(a: int, b: int): int {
    if a < b then a else b
  }

  /** The speed the difficulty step assigns at a given score. */
  function SpeedFor(score: int): (v: int)
    ensures score >= 0 ==> StartSpeed <= v <= MaxSpeed
  {
    Min(MaxSpeed, StartSpeed + score / ScoreStep)
  }

  lemma SpeedForMonotone(a: int, b: int)
    requires 0 <= a <= b
    ensures SpeedFor(a) <= SpeedFor(b)
  {
    assert a / ScoreStep <= b / ScoreStep;
  }

  /** The difficulty step: it fires only when the score is a positive multiple of 500. */
  function SteppedSpeed(speed: int, score: int): int {
    if score > 0 && score % ScoreStep == 0 then SpeedFor(score) else speed
  }

  /** Player movement: each bound is tested before the move of 8, so the clamp is soft. */
  function Steer(x: int, left: bool, right: bool): int {
    var x1 := if left && x > RoadLeft then x - PlayerSpeed else x;
    if right && x1 < RoadRight - PlayerWidth then x1 + PlayerSpeed else x1
  }

  /** Positions the car can take: within a step of the road and on the grid of steps from the start. */
  predicate InBand(x: int) {
    RoadLeft - PlayerSpeed < x < RoadRight - PlayerWidth + PlayerSpeed && (x - StartX) % PlayerSpeed == 0
  }

  lemma SteerKeepsBand(x: int, left: bool, right: bool)
    requires InBand(x)
    ensures InBand(Steer(x, left, right))
  {
  }

  /**
   * The band is x = 194, 202, ..., 554: the car can stand 6 pixels past the
   * road's left edge, and its right side 4 pixels past the right edge.
   */
  lemma BandLimits(x: int)
    requires InBand(x)
    ensures 194 <= x <= 554
    ensures x < RoadLeft ==> x == 194
    ensures x > RoadRight - PlayerWidth ==> x == 554
    ensures RoadLeft - 6 <= x && x + PlayerWidth <= RoadRight + 4
  {
    var k := (x - StartX) / PlayerSpeed;
    assert x == StartX + PlayerSpeed * k;
  }

  /** Both extremes of the band are reached by a single step from inside the road. */
  lemma SoftClamp()
    ensures InBand(202) && Steer(202, true, false) == 194 && Steer(194, true, false) == 194
    ensures InBand(546) && Steer(546, false, true) == 554 && Steer(554, false, true) == 554
  {
  }

  /** What every state reachable from the start satisfies. */
  predicate Valid(s: State) {
    && InBand(s.playerX)
    && 0 <= s.score && s.score % Reward == 0
    && 0 <= s.highScore
    && StartSpeed <= s.gameSpeed <= SpeedFor(s.score)
    && 0 <= s.explosionTimer <= ExplosionTicks
    && (s.showingExplosion ==> !s.gameRunning && 0 < s.explosionTimer)
    && (s.gameRunning ==> s.timerActive)
    && (forall o <- s.obstacles :: Placed(o))
    && (forall l <- s.particles :: 0 < l < MinLife + LifeRange)
  }

  /** startGame: a new session; the high score and the explosion timer are left alone. */
  function StartGame(s: State): State {
    s.(gameRunning := true, showingExplosion := false, score := 0, gameSpeed := StartSpeed,
       obstacles := [], particles := [], playerX := StartX, timerActive := true)
  }

  /** The obstacle the tick appends when the roll is 0. */
  function Spawn(d: Draws): seq<Obstacle> {
    if d.roll == 0 then [NewObstacle(d.lane, SpawnY, d.kind, d.color)] else []
  }

  /** createExplosion: start the 60-tick explosion and add the burst of particles. */
  function CreateExplosion(s: State, burst: seq<int>): State {
    s.(showingExplosion := true, explosionTimer := ExplosionTicks, particles := s.particles + burst)
  }

  /** gameOver: end the session, stop the timer and promote the score to high score if it beats it. */
  function GameOver(s: State): (r: State)
    ensures r.highScore >= s.highScore && r.highScore >= s.score
    ensures r.highScore == s.score || r.highScore == s.highScore
    ensures r.highScore != s.highScore <==> s.score > s.highScore
    ensures !r.gameRunning && !r.timerActive
  {
    s.(gameRunning := false, timerActive := false,
       highScore := if s.score > s.highScore then s.score else s.highScore)
  }

  /** The first half of a running tick: steer, advance and score the obstacles, maybe spawn one. */
  function Advance(s: State, d: Draws): State {
    s.(playerX := Steer(s.playerX, s.movingLeft, s.movingRight),
       obstacles := Survivors(s.obstacles, s.gameSpeed) + Spawn(d),
       score := s.score + Reward * Exits(s.obstacles, s.gameSpeed))
  }

  /** The second half: a crash ends the session, otherwise the difficulty step. */
  function Resolve(t: State, burst: seq<int>): State {
    if Collides(t.playerX, t.obstacles) then GameOver(CreateExplosion(t, burst))
    else t.(gameSpeed := SteppedSpeed(t.gameSpeed, t.score))
  }

  /** updateGame: one running tick. */
  function UpdateGame(s: State, d: Draws): State {
    if !s.gameRunning then s else Resolve(Advance(s, d), d.burst)
  }

  /** updateExplosion: count the timer down, age the particles, and end the explosion when the timer runs out. */
  function UpdateExplosion(s: State): State {
    var timer := s.explosionTimer - 1;
    s.(explosionTimer := timer, particles := Aged(s.particles),
       showingExplosion := if timer <= 0 then false else s.showingExplosion)
  }

  /** actionPerformed: what one event of the timer does; a stopped timer delivers none. */
  function ActionPerformed(s: State, d: Draws): State {
    if !s.timerActive then s
    else
      var t := if s.gameRunning then UpdateGame(s, d) else s;
      if t.showingExplosion then UpdateExplosion(t) else t
  }

  /** The guard both restart paths test. */
  predicate CanRestart(s: State) {
    !s.gameRunning && !s.showingExplosion
  }

  function KeyPressed(s: State, key: Key): State {
    match key
    case Left => s.(movingLeft := true)
    case Right => s.(movingRight := true)
    case Space => if CanRestart(s) then StartGame(s) else s
    case OtherKey => s
  }

  function KeyReleased(s: State, key: Key): State {
    match key
    case Left => s.(movingLeft := false)
    case Right => s.(movingRight := false)
    case _ => s
  }

  /** mouseClicked: onButton says whether the click fell inside the restart button. */
  function MouseClicked(s: State, onButton: bool): State {
    if CanRestart(s) && onButton then StartGame(s) else s
  }

  /** The events the panel reacts to. */
  datatype Event = Tick(draws: Draws) | Press(key: Key) | Release(key: Key) | Click(onButton: bool)

  function Step(s: State, e: Event): State {
    match e
    case Tick(d) => ActionPerformed(s, d)
    case Press(k) => KeyPressed(s, k)
    case Release(k) => KeyReleased(s, k)
    case Click(b) => MouseClicked(s, b)
  }

  function Run(s: State, events: seq<Event>): State
    decreases |events|
  {
    if events == [] then s else Run(Step(s, events[0]), events[1..])
  }

  /** Every tick of the run draws values the random generator can produce in the state it meets. */
  predicate Fair(s: State, events: seq<Event>)
    decreases |events|
  {
    || events == []
    || ((events[0].Tick? ==> InRange(events[0].draws, s.gameSpeed)) && Fair(Step(s, events[0]), events[1..]))
  }

  /** The state the panel's constructor leaves: field initialisers, then startGame. */
  function Launch(): (s: State)
    ensures Valid(s) && s.gameRunning && s.highScore == 0
  {
    StartGame(State(StartX, false, false, [], [], 0, 0, StartSpeed, true, false, 0, false))
  }
}
