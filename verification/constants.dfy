/** The game's fixed configuration, as in constants.py. */
module Constants {

  const SCREEN_WIDTH: int := 1280
  const SCREEN_HEIGHT: int := 720

  const ASTEROID_MIN_RADIUS: int := 20
  const ASTEROID_KINDS: int := 3
  /** Seconds of accumulated frame time before the field spawns. */
  const ASTEROID_SPAWN_RATE: real := 0.8
  const ASTEROID_MAX_RADIUS: int := ASTEROID_MIN_RADIUS * ASTEROID_KINDS

  const PLAYER_RADIUS: int := 20
  /** Degrees per second. */
  const PLAYER_TURN_SPEED: real := 300.0
  /** Pixels per second. */
  const PLAYER_SPEED: real := 200.0

  const SHOT_RADIUS: int := 5
  const PLAYER_SHOT_SPEED: real := 500.0
  /** Seconds. */
  const PLAYER_SHOT_COOLDOWN: real := 0.3
}
