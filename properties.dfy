/** What the game's routines guarantee, proved about the state machine of module Rules. */
module Properties {
  import opened Config
  import opened Obstacles
  import opened Particles
  import opened Rules

  /** The first half of a running tick keeps every part of the invariant that it touches. */
  lemma AdvanceKeepsBounds(s: State, d: Draws)
    requires Valid(s) && s.gameRunning && InRange(d, s.gameSpeed)
    ensures var t := Advance(s, d);
      && InBand(t.playerX)
      && (forall o <- t.obstacles :: Placed(o))
      && 0 <= s.score <= t.score && t.score % Reward == 0
      && t.gameSpeed <= SpeedFor(t.score)
  {
    SteerKeepsBand(s.playerX, s.movingLeft, s.movingRight);
    SurvivorsPlaced(s.obstacles, s.gameSpeed);
    var t := Advance(s, d);
    SpeedForMonotone(s.score, t.score);
    assert forall o <- t.obstacles :: Placed(o);
  }

  /** A running tick keeps the invariant. */
  lemma UpdateGameKeepsValid(s: State, d: Draws)
    requires Valid(s) && InRange(d, s.gameSpeed)
    ensures Valid(UpdateGame(s, d))
  {
    if s.gameRunning {
      AdvanceKeepsBounds(s, d);
    }
  }

  /** An explosion tick keeps the invariant; the game runs it only while the explosion shows. */
  lemma UpdateExplosionKeepsValid(s: State)
    requires Valid(s) && s.showingExplosion
    ensures Valid(UpdateExplosion(s))
  {
    AgedBounded(s.particles, MinLife + LifeRange);
  }

  /** A timer event keeps the invariant and never lowers the high score. */
  lemma ActionPerformedKeepsValid(s: State, d: Draws)
    requires Valid(s) && InRange(d, s.gameSpeed)
    ensures Valid(ActionPerformed(s, d))
    ensures ActionPerformed(s, d).highScore >= s.highScore
  {
    if s.timerActive {
      var t := if s.gameRunning then UpdateGame(s, d) else s;
      UpdateGameKeepsValid(s, d);
      if t.showingExplosion {
        UpdateExplosionKeepsValid(t);
      }
    }
  }

  /** A new session is valid and keeps the high score. */
  lemma StartGameKeepsValid(s: State)
    requires Valid(s)
    ensures Valid(StartGame(s)) && StartGame(s).highScore == s.highScore
  {
  }

  /** A key press keeps the invariant and the high score. */
  lemma KeyPressedKeepsValid(s: State, key: Key)
    requires Valid(s)
    ensures Valid(KeyPressed(s, key)) && KeyPressed(s, key).highScore == s.highScore
  {
    if key == Space && CanRestart(s) {
      StartGameKeepsValid(s);
    }
  }

  /** A mouse click keeps the invariant and the high score. */
  lemma MouseClickedKeepsValid(s: State, onButton: bool)
    requires Valid(s)
    ensures Valid(MouseClicked(s, onButton)) && MouseClicked(s, onButton).highScore == s.highScore
  {
    if CanRestart(s) && onButton {
      StartGameKeepsValid(s);
    }
  }

  /** Any event keeps the invariant and never lowers the high score. */
  lemma StepKeepsValid(s: State, e: Event)
    requires Valid(s)
    requires e.Tick? ==> InRange(e.draws, s.gameSpeed)
    ensures Valid(Step(s, e))
    ensures Step(s, e).highScore >= s.highScore
  {
    match e {
      case Tick(d) => ActionPerformedKeepsValid(s, d);
      case Press(k) => KeyPressedKeepsValid(s, k);
      case Release(k) =>
      case Click(b) => MouseClickedKeepsValid(s, b);
    }
  }

  /** A run of fair events from a valid state ends in a valid state with a high score no lower. */
  lemma {:induction false} RunKeepsValid(s: State, events: seq<Event>)
    requires Valid(s) && Fair(s, events)
    ensures Valid(Run(s, events))
    ensures Run(s, events).highScore >= s.highScore
    decreases |events|
  {
    if events != [] {
      StepKeepsValid(s, events[0]);
      RunKeepsValid(Step(s, events[0]), events[1..]);
    }
  }

  /**
   * In a running tick the score rises by exactly the reward for each
   * obstacle removed from the list, whether or not the tick ends in a crash.
   */
  lemma ScoreCountsRemovals(s: State, d: Draws)
    requires s.gameRunning
    ensures var r := UpdateGame(s, d);
      && r.score - s.score == Reward * (|s.obstacles| + |Spawn(d)| - |r.obstacles|)
      && |r.obstacles| <= |s.obstacles| + 1
  {
    var _ := AdvanceExactly(s.obstacles, s.gameSpeed);
  }

  /**
   * A running tick moves every obstacle down by the current speed, drops
   * exactly those now below the screen, keeps the rest in order, and then
   * appends at most one new obstacle, at y = -100 and only on a roll of 0.
   */
  lemma ObstaclesAfterTick(s: State, d: Draws) returns (idx: seq<nat>)
    requires s.gameRunning
    ensures var r := UpdateGame(s, d);
      && |r.obstacles| == |idx| + (if d.roll == 0 then 1 else 0)
      && (forall k :: 0 <= k < |idx| ==>
            idx[k] < |s.obstacles| && r.obstacles[k] == s.obstacles[idx[k]].(y := s.obstacles[idx[k]].y + s.gameSpeed))
      && (forall k, m :: 0 <= k < m < |idx| ==> idx[k] < idx[m])
      && (forall j :: 0 <= j < |s.obstacles| ==> (j in idx <==> s.obstacles[j].y + s.gameSpeed <= Height))
      && (d.roll == 0 ==> r.obstacles[|idx|] == NewObstacle(d.lane, SpawnY, d.kind, d.color))
  {
    idx := AdvanceExactly(s.obstacles, s.gameSpeed);
  }

  /**
   * The speed never falls within a tick and stays in [5, 15]. A tick that
   * ends running on a positive multiple of 500 sets the speed for that score;
   * otherwise the speed is unchanged, and a crash never changes it.
   */
  lemma SpeedSteps(s: State, d: Draws)
    requires Valid(s) && InRange(d, s.gameSpeed)
    ensures var r := UpdateGame(s, d);
      && s.gameSpeed <= r.gameSpeed <= MaxSpeed
      && (r.gameSpeed != s.gameSpeed ==>
            r.gameRunning && r.score > 0 && r.score % ScoreStep == 0 && r.gameSpeed == SpeedFor(r.score))
      && (r.gameRunning && r.score > 0 && r.score % ScoreStep == 0 ==> r.gameSpeed == SpeedFor(r.score))
  {
    UpdateGameKeepsValid(s, d);
    if s.gameRunning {
      SpeedForMonotone(s.score, UpdateGame(s, d).score);
    }
  }

  /**
   * Reaching 1000 steps the speed: from 990 at speed 6, one obstacle leaving
   * the screen gives 1000 and the speed becomes 7.
   */
  lemma StepAtThousand()
    ensures var o := NewObstacle(1, 596, 0, 0);
      var s := State(StartX, false, false, [o], [], 990, 0, 6, true, false, 0, true);
      var r := UpdateGame(s, Draws(1, 0, 0, 0, []));
      Valid(s) && r.gameRunning && r.score == 1000 && r.gameSpeed == 7 && r.obstacles == []
  {
    var o := NewObstacle(1, 596, 0, 0);
    assert [o][1..] == [];
    assert !OnScreen(MoveBy(6)(o));
    assert Survivors([o], 6) == [] && Exits([o], 6) == 1;
  }

  /**
   * The difficulty step is missed when one tick carries the score across a
   * multiple of 500. At speed 6 an obstacle leaves from y in (594, 600], so
   * two obstacles spawned on consecutive ticks at speed 5 (5 pixels apart)
   * can leave together: from 990 the score jumps to 1010 and the speed stays
   * 6, although the speed for 1010 is 7.
   */
  lemma StepCanBeSkipped()
    ensures var a := NewObstacle(2, 600, 0, 0);
      var b := NewObstacle(3, 595, 1, 0);
      var s := State(StartX, false, false, [a, b], [], 990, 0, 6, true, false, 0, true);
      var r := UpdateGame(s, Draws(1, 0, 0, 0, []));
      Valid(s) && r.gameRunning && r.score == 1010 && r.gameSpeed == 6 && SpeedFor(1010) == 7
  {
    var a := NewObstacle(2, 600, 0, 0);
    var b := NewObstacle(3, 595, 1, 0);
    assert [a, b][1..] == [b] && [b][1..] == [];
    assert !OnScreen(MoveBy(6)(a)) && !OnScreen(MoveBy(6)(b));
    assert Survivors([b], 6) == [] && Exits([b], 6) == 1;
    assert Survivors([a, b], 6) == [] && Exits([a, b], 6) == 2;
  }

  /**
   * A tick is fatal exactly when the moved car overlaps one of the moved
   * and spawned obstacles. A fatal tick starts a 60-tick explosion with the
   * 100 drawn particles, stops the session and the timer, keeps the speed
   * and promotes the score; any other tick leaves the explosion, the
   * particles, the high score and the timer alone.
   */
  lemma CrashOutcome(s: State, d: Draws)
    requires Valid(s) && s.gameRunning && InRange(d, s.gameSpeed)
    ensures var r := UpdateGame(s, d);
      && (r.gameRunning <==> !Collides(r.playerX, r.obstacles))
      && (!r.gameRunning ==>
            && r.showingExplosion && r.explosionTimer == ExplosionTicks
            && r.particles == s.particles + d.burst && |r.particles| == |s.particles| + BurstSize
            && r.gameSpeed == s.gameSpeed && !r.timerActive
            && r.highScore == (if r.score > s.highScore then r.score else s.highScore))
      && (r.gameRunning ==>
            && !r.showingExplosion && r.explosionTimer == s.explosionTimer && r.particles == s.particles
            && r.highScore == s.highScore && r.timerActive)
  {
  }

  /** A car kept at x >= 490 with no key held to the left is never hit: the session cannot end. */
  lemma RightEdgeIsSafe(s: State, d: Draws)
    requires Valid(s) && s.gameRunning && InRange(d, s.gameSpeed)
    requires s.playerX >= 490 && !s.movingLeft
    ensures UpdateGame(s, d).gameRunning
    ensures UpdateGame(s, d).playerX >= 490
  {
    UpdateGameKeepsValid(s, d);
    var r := UpdateGame(s, d);
    var x := Steer(s.playerX, s.movingLeft, s.movingRight);
    var obs := Survivors(s.obstacles, s.gameSpeed) + Spawn(d);
    SurvivorsPlaced(s.obstacles, s.gameSpeed);
    assert forall o <- obs :: Placed(o);
    RightOfObstacles(x, obs);
  }

  /**
   * An explosion tick lowers the timer and every life by exactly one, keeps
   * exactly the particles whose life stays positive, in order, and clears the
   * explosion exactly when the timer reaches zero; the particles still alive
   * at that moment are not cleared.
   */
  lemma ExplosionTick(s: State) returns (idx: seq<nat>)
    ensures var r := UpdateExplosion(s);
      && r.explosionTimer == s.explosionTimer - 1
      && (r.showingExplosion <==> s.showingExplosion && r.explosionTimer > 0)
      && |r.particles| == |idx|
      && (forall k :: 0 <= k < |idx| ==> idx[k] < |s.particles| && r.particles[k] == s.particles[idx[k]] - 1)
      && (forall k, m :: 0 <= k < m < |idx| ==> idx[k] < idx[m])
      && (forall j :: 0 <= j < |s.particles| ==> (j in idx <==> s.particles[j] > 1))
      && r.obstacles == s.obstacles && r.score == s.score && r.playerX == s.playerX
      && r.gameSpeed == s.gameSpeed && r.highScore == s.highScore
      && r.gameRunning == s.gameRunning && r.timerActive == s.timerActive
      && r.movingLeft == s.movingLeft && r.movingRight == s.movingRight
  {
    idx := AgedExactly(s.particles);
  }

  /**
   * The tick that ends the explosion ages the particles like any other and
   * does not clear them: every particle with life above 1 is still there.
   */
  lemma ExpiryKeepsParticles(s: State)
    requires s.showingExplosion && s.explosionTimer == 1
    ensures var r := UpdateExplosion(s);
      && !r.showingExplosion
      && r.particles == Aged(s.particles)
      && ((exists l <- s.particles :: l > 1) ==> r.particles != [])
  {
    var idx := AgedExactly(s.particles);
    if l :| l in s.particles && l > 1 {
      var j :| 0 <= j < |s.particles| && s.particles[j] == l;
      assert j in idx;
    }
  }

  /** The session is over, the explosion still shows and the timer is stopped: no event can change anything but the key flags. */
  predicate Frozen(s: State) {
    !s.gameRunning && s.showingExplosion && !s.timerActive
  }

  /** Either still running, or frozen after a crash. */
  predicate Sealed(s: State) {
    s.gameRunning || Frozen(s)
  }

  /**
   * The tick that detects a crash stops the timer inside gameOver, and the
   * same event then runs a single explosion tick: the state is left showing
   * the explosion, with 59 ticks to go, and with no timer to deliver them.
   */
  lemma FatalTickFreezes(s: State, d: Draws)
    requires Valid(s) && s.gameRunning && InRange(d, s.gameSpeed)
    requires !UpdateGame(s, d).gameRunning
    ensures Frozen(ActionPerformed(s, d))
    ensures ActionPerformed(s, d).explosionTimer == ExplosionTicks - 1
    ensures !CanRestart(ActionPerformed(s, d))
  {
    CrashOutcome(s, d);
  }

  /** From a frozen state every run of events leaves the state as it was, up to the key flags. */
  lemma {:induction false} FrozenForever(s: State, events: seq<Event>)
    requires Frozen(s)
    ensures var r := Run(s, events);
      Frozen(r) && r.(movingLeft := s.movingLeft, movingRight := s.movingRight) == s
    decreases |events|
  {
    if events != [] {
      var t := Step(s, events[0]);
      assert Frozen(t) && t.(movingLeft := s.movingLeft, movingRight := s.movingRight) == s;
      FrozenForever(t, events[1..]);
    }
  }

  /** Every event keeps a valid state sealed. */
  lemma StepKeepsSealed(s: State, e: Event)
    requires Valid(s) && Sealed(s)
    requires e.Tick? ==> InRange(e.draws, s.gameSpeed)
    ensures Sealed(Step(s, e))
  {
    if e.Tick? && s.gameRunning && !UpdateGame(s, e.draws).gameRunning {
      FatalTickFreezes(s, e.draws);
    }
  }

  /**
   * As written, a restart is never accepted: from the state the constructor
   * leaves, no fair run of events reaches a state that is neither running
   * nor showing the explosion.
   */
  lemma {:induction false} NeverRestartable(s: State, events: seq<Event>)
    requires Valid(s) && Sealed(s) && Fair(s, events)
    ensures Sealed(Run(s, events))
    ensures !CanRestart(Run(s, events))
    decreases |events|
  {
    if events != [] {
      StepKeepsValid(s, events[0]);
      StepKeepsSealed(s, events[0]);
      NeverRestartable(Step(s, events[0]), events[1..]);
    }
  }

  /** The session that starts in the constructor is the only one: no run restarts it. */
  lemma LaunchNeverRestarts(events: seq<Event>)
    requires Fair(Launch(), events)
    ensures !CanRestart(Run(Launch(), events))
    ensures Run(Launch(), events).gameRunning || Run(Launch(), events).showingExplosion
  {
    NeverRestartable(Launch(), events);
  }

  /**
   * Both restart paths start a new session exactly when the game is neither
   * running nor exploding (and, for the mouse, the click is on the button);
   * a new session has score 0, speed 5, no obstacles or particles, the car at
   * x = 250, and keeps the high score.
   */
  lemma RestartGuard(s: State, onButton: bool)
    ensures KeyPressed(s, Space).gameRunning <==> s.gameRunning || CanRestart(s)
    ensures MouseClicked(s, onButton) != s ==> CanRestart(s) && onButton
    ensures CanRestart(s) && onButton ==> MouseClicked(s, onButton) == KeyPressed(s, Space)
    ensures !CanRestart(s) ==> KeyPressed(s, Space) == s && MouseClicked(s, onButton) == s
    ensures CanRestart(s) ==>
      var r := KeyPressed(s, Space);
      && r.gameRunning && !r.showingExplosion && r.timerActive
      && r.score == 0 && r.gameSpeed == StartSpeed && r.obstacles == [] && r.particles == []
      && r.playerX == 250 && r.highScore == s.highScore
  {
  }
}
