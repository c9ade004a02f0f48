/** The fixed dimensions and tuning constants of the car game. */
module Config {
  // Window and road
  const Width := 800
  const Height := 600
  const RoadWidth := 400
  const LaneCount := 4
  const LaneWidth := RoadWidth / LaneCount
  /** x of the left edge of the road (200). */
  const RoadLeft := (Width - RoadWidth) / 2
  /** x of the right edge of the road (600). */
  const RoadRight := (Width + RoadWidth) / 2

  // The player's car
  const PlayerY := 450
  const PlayerWidth := 50
  const PlayerHeight := 80
  const PlayerSpeed := 8

  // Obstacles
  /** Half the width of an ordinary car: an obstacle's x is its lane centre minus this. */
  const LaneOffset := 25
  const SpawnY := -100
  const KindCount := 3
  const PaletteSize := 5
  /** Points for an obstacle that leaves the bottom of the screen. */
  const Reward := 10
  /** The spawn roll is drawn from [0, SpawnBase - 2 * gameSpeed). */
  const SpawnBase := 60

  // Difficulty
  const StartSpeed := 5
  const MaxSpeed := 15
  const ScoreStep := 500

  // Explosion
  const ExplosionTicks := 60
  const BurstSize := 100
  /** A particle's life is drawn from [MinLife, MinLife + LifeRange). */
  const MinLife := 30
  const LifeRange := 40
}
