/** Game-wide constants of guacamole-runner and the Rust integer width the tiles use. */
module Consts {

  /** Rust's `u8`: tile heights and the map's `tallest`. */
  type u8 = x: int | 0 <= x < 256

  /** Vertical pixel distance between two hex rows (a float that holds a whole number). */
  const FLOOR_VERT_STEP: real := 28.0
  /** Vertical pixel offset of one unit of tile height. */
  const FLOOR_DEPTH_STEP: real := 12.0

  /** Highest ground a generated tile can have. */
  const MAX_FLOOR_HEIGHT: u8 := 2
  /** Highest wall the tile editor raises a tile to. */
  const MAX_BRICK_HEIGHT: u8 := 4

  /** Size of the map the game creates. */
  const WIDTH: nat := 1000
  const HEIGHT: nat := 10

  /** Pixels the map scrolls per refill of the scroll countdown (a float holding a whole number). */
  const SCROLL_RATE: real := 4.0
}
