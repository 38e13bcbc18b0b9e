# guacamole-runner: hex map core in Dafny

This project models the map core of the guacamole-runner game. The game
scrolls a hexagonal map made of tiles, and each tile has a ground height, a
wall height and two flags: tilled and grown. The model covers five parts:

- **Hex arithmetic** (`hex.dfy`, module `Hex`): the cube/offset conversions
  `cube_to_offset` and `offset_to_cube`, written with Rust's truncating `/`
  and two's-complement `& 1`, and the corrective step of `cube_round`. That
  step rounds each cube component half away from zero, then recomputes the
  component with the largest rounding error from the other two.
- **Map generation** (`hex_map.dfy`, module `HexMaps`): `HexTileData::new`
  and `HexMap::new`. Generation fills `width * height` tiles with random
  heights and keeps the running maximum `tallest`. It then runs five passes
  of tilled runs, one per ten-column section. Each run's length is the
  truncated mean of five draws from 3..=7, and an index past the end of the
  map is skipped.
- **Picking** (`HexMaps.HexMap.PixelToHex`): the mouse-to-tile scan of
  `pixel_to_hex`. For every depth `0..=tallest` it rounds a probe to a hex
  and keeps the hit whose wall height equals that depth. The hit at the
  highest depth, which is the tallest tile, wins. `TallestBelow` is an
  independent downward reference scan of the same search, and the loop is
  proved equal to it.
- **Editing** (`systems.dfy`, module `Systems`): `update_hex_map`. A left
  click lowers the selected tile, a right click raises its wall, and
  `tallest` follows the new wall.
- **Scrolling**: `CamScroller` and `scroll_map`. A countdown adds
  `SCROLL_RATE` to a store, and whole units are drained from the store into
  the map's x position.

The game's random number generator is modelled as the draws it produces,
passed in as parameters. `heightDraws` holds one draw in `0..=2` per tile.
`sectionDraws` holds, per pass and per section, a row in `0..=height` and
five run draws in `3..=7`. Those ranges are the method preconditions, and
they are what `gen_range` guarantees.

The map invariant `HexMap.Valid` has five parts:

- there are `width * height` tiles;
- `tallest` is at most `MAX_BRICK_HEIGHT`;
- each ground height is at most `MAX_FLOOR_HEIGHT`;
- each wall height is at most `MAX_BRICK_HEIGHT` and at most `tallest`;
- a grown tile is always tilled.

Generation establishes it and every edit preserves it.

Three points of the code worth knowing:

- **Ties in `cube_round`.** The comparisons are strict, so when two
  components tie for the largest error, the later one is recomputed: a
  `q`/`r` tie recomputes `r`, and a tie of `s` with either recomputes `s`.
  `Hex.CubeRoundRecomputesLargestError` states the behaviour of the code.
- **The run row.** In generation the run's starting line is named `col`,
  but it is multiplied by `width`, so it is a row of the grid. It is drawn
  from `0..=height`. The draw `height` lands past the last tile, so that
  run tills nothing.
- **Picked coordinates.** The doc comment on `pixel_to_hex` says it returns
  offset coordinates. It actually returns the axial `(q, r)` pair of
  `cube_round`, and those are used directly as the tile column and row.
  This matches how tiles are laid out (x advances by a full tile and each
  row shifts by half a tile). `cube_to_offset` and `offset_to_cube` are
  unused helpers in the game.

## Model

| member | source | states |
|---|---|---|
| Hex.LowBit | guacamole-runner/src/map.rs:192 | `r & 1` on a two's-complement integer is 0 or 1, and `r` minus it is even, for negative `r` too |
| Hex.TruncHalf | guacamole-runner/src/map.rs:192 | halving that truncates toward zero: twice the result is the input rounded toward zero to an even number, so it is exact on even numbers, keeps the sign and never grows the magnitude |
| Hex.CubeToOffset | guacamole-runner/src/map.rs:191-196 | the row is `r`, and twice the column shift is `r` rounded down to an even number |
| Hex.OffsetToCube | guacamole-runner/src/map.rs:198-205 | the three cube components sum to zero, `z` is the offset row, and `x` is the column shifted back by half the even part of the row |
| Hex.OffsetCubeRoundTrip | guacamole-runner/src/map.rs:191-205 | converting offset to cube and back gives the same offset, for every integer pair |
| Hex.CubeOffsetRoundTrip | guacamole-runner/src/map.rs:191-205 | converting cube `(q, r)` to offset and back gives `(q, -q-r, r)` |
| Hex.RoundHalfAway | guacamole-runner/src/map.rs:208-210 | the rounded integer is within one half of the input, and an exact half rounds away from zero |
| Hex.RoundWhole | guacamole-runner/src/map.rs:208-210 | a whole number rounds to itself with no error |
| Hex.RoundCube | guacamole-runner/src/map.rs:208-214 | each component is `RoundHalfAway` of its input, each recorded error is the absolute difference between the rounded component and its input, and each error lies in `[0, 0.5]` |
| Hex.CubeRound | guacamole-runner/src/map.rs:207-225 | the corrected cube always sums to zero |
| Hex.CubeRoundRecomputesLargestError | guacamole-runner/src/map.rs:216-222 | which component is recomputed: `q` only if its error is strictly largest, `r` if its error is at least `q`'s and more than `s`'s, `s` otherwise |
| Hex.CubeRoundKeepsValidCube | guacamole-runner/src/map.rs:216-224 | if the rounded components already sum to zero, the correction changes nothing |
| Hex.CubeRoundOfHex | guacamole-runner/src/map.rs:207-225 | rounding the exact cube of hex `(q, r)` returns that hex |
| HexMaps.NewTile | guacamole-runner/src/map.rs:41-48 | a new tile has ground height equal to wall height equal to the draw, and is neither tilled nor grown |
| HexMaps.SumBounds | guacamole-runner/src/map.rs:77-80 | a sum of draws, each in `3..=7`, lies between 3 and 7 times the number of draws |
| HexMaps.RunTotalBounds | guacamole-runner/src/map.rs:77-81 | a run's length, the truncated mean of its five draws, lies in `3..=7` |
| HexMaps.SegmentPlacement | guacamole-runner/src/map.rs:83-86 | a run cell lies in its own section, in one of that section's first 7 columns, and is on the map exactly when the drawn row is below `height` |
| HexMaps.TilledColumn | guacamole-runner/src/map.rs:74-89 | any tile tilled by generation sits in one of the first 7 columns of a ten-column section |
| HexMaps.GenerateHeights | guacamole-runner/src/map.rs:62-72 | one fresh tile per draw, in order, and `tallest` is the largest wall height (0 for an empty map) |
| HexMaps.TillSections | guacamole-runner/src/map.rs:74-89 | each tile's tilled flag afterwards is its old flag or "some run of some pass covers it", and nothing else changes |
| HexMaps.HexMap.constructor | guacamole-runner/src/map.rs:60-106 | the map has `width * height` tiles, each tile is a new tile from its height draw with tilled set exactly where a run covers it, `tallest` is the maximum height, the invariant holds, and the position is `(0, 360 - height * FLOOR_VERT_STEP)` |
| HexMaps.TallestBelowSome | guacamole-runner/src/map.rs:139-166 | a reference result `Some(e)` is a depth whose probe hits a tile on the map with wall height `e`, and no higher depth below the bound hits |
| HexMaps.TallestBelowNone | guacamole-runner/src/map.rs:139-166 | the reference result is `None` exactly when no depth below the bound hits |
| HexMaps.ScanCoversAllHeights | guacamole-runner/src/map.rs:139-166 | scanning to `tallest` suffices: `None` means no depth at all hits, and `Some(e)` is a valid, in-bounds tile whose wall is `e`, with no hit at any higher depth |
| HexMaps.IndexInGrid | guacamole-runner/src/map.rs:148-152 | a coordinate that passes the bounds check indexes inside the `width * height` tile vector |
| HexMaps.HexMap.PixelToHex | guacamole-runner/src/map.rs:136-167 | the upward scan returns exactly the reference downward scan's answer: `None`, or the hex picked at the highest matching depth |
| Systems.EditTile | guacamole-runner/src/systems.rs:62-80 | an edit changes only the two heights, never the tilled or grown flags |
| Systems.LeftClick | guacamole-runner/src/systems.rs:62-72 | each branch of the left click: a raised ground is lowered, a taller wall is lowered, equal heights are lowered together, a flat tile is unchanged, and no height ever rises |
| Systems.RightClick | guacamole-runner/src/systems.rs:73-80 | the right click never changes the ground: a wall below the ground is set to ground + 1, a wall below `MAX_BRICK_HEIGHT` rises by one, a wall at the cap is unchanged, and the wall never falls |
| Systems.NoClick | guacamole-runner/src/systems.rs:62-80 | with no button pressed the tile is unchanged |
| Systems.EditKeepsRange | guacamole-runner/src/systems.rs:62-80 | an edit keeps a tile within the height caps with grown implying tilled, and keeps ground at most wall if it was |
| Systems.EditSelected | guacamole-runner/src/systems.rs:57-85 | the tile at `y * width + x` is replaced by its edit, `tallest` becomes the larger of itself and the new wall, and the map invariant is preserved |
| Systems.UpdateHexMap | guacamole-runner/src/systems.rs:50-86 | with no picked hex the map is unchanged; otherwise exactly the tile the reference scan selects is edited, `tallest` never decreases and the invariant is preserved |
| Systems.WholeUnits | guacamole-runner/src/systems.rs:112-115 | the number of whole units drained from a non-negative store leaves a remainder in `[0, 1)`, and nothing is drained from a store below 1 |
| Systems.CamScroller.constructor | guacamole-runner/src/systems.rs:95-101 | a new scroller starts its countdown at `max` with an empty store |
| Systems.ScrollMap | guacamole-runner/src/systems.rs:104-116 | the countdown either decrements or resets to `max` and adds `SCROLL_RATE`; the map's x moves left by exactly the whole units drained, the store keeps the fractional rest in `[0, 1)`, and x never increases |

## Left out

- Rendering (`render_hex_map` and the draw calls), `move_camera`, the
  game's entry point and its components are not part of this model. They
  are drawing, input polling and wiring, with no logic the map core
  depends on.
- `pixel_to_hex_raw` and `axial_to_pixel` are `f32` geometry and are not
  modelled. `PixelToHex` and `UpdateHexMap` instead take the probe as a
  function `rounded` from the depth offset to the rounded cube and its
  three per-component errors. `Hex.RoundCube` models that rounding on exact
  reals, and the `cube_round` correction applied to the probe is modelled
  in full.
- Floating-point precision of `f32`/`f64` in general: position, store and
  scroll rate are exact reals.
- The random number generator: its seed, its algorithm and the order in
  which height draws and run draws are interleaved in one stream are not
  modelled. The draws are parameters with the ranges `gen_range` promises.
- Integer widths: `i32` overflow in the hex conversions, the saturating
  `as i32` cast of a rounded float, and `usize` overflow of
  `width * height` or of a run index are not modelled. Integers are
  unbounded.
- Systems.EditTile: its precondition excludes the `u8` overflow of
  `ground_height + 1` at ground height 255. On a valid map the ground
  height is at most `MAX_FLOOR_HEIGHT`, so this never occurs there.
- Systems.ScrollMap: the countdown `cur` is an unbounded integer rather
  than an `i32`. `scroll_map` decrements only a positive countdown and
  otherwise resets it to `max`, so no underflow can occur either way.
