/**
 * The hexagonal terrain: per-tile data, deterministic map generation from a
 * given sequence of random draws, and the isometric depth scan that picks the
 * tile under a pixel.
 */
module HexMaps {
  import opened Consts
  import opened Wrappers
  import opened Hex

  /** Generation runs this many tilling passes over the map. */
  const PASSES: nat := 5
  /** Each pass tills one run in every section of this many columns. */
  const SECTION_WIDTH: nat := 10
  /** A run's length is the integer average of this many draws ... */
  const RUN_DRAWS: nat := 5
  /** ... each drawn from RUN_MIN..=RUN_MAX. */
  const RUN_MIN: int := 3
  const RUN_MAX: int := 7

  /** `HexTileData`. */
  datatype HexTileData = HexTileData(groundHeight: u8, wallHeight: u8, isTilled: bool, isGrown: bool)

  /** `Vec2<f32>`, for the map's scroll position. */
  datatype Vec2 = Vec2(x: real, y: real)

  /** `HexTileData::new(height)`: a level tile of the given height, neither tilled nor grown. */
  function NewTile(height: u8): (t: HexTileData)
    ensures t.groundHeight == height && t.wallHeight == height
    ensures !t.isTilled && !t.isGrown
  {
    HexTileData(height, height, false, false)
  }

  /** The bounds every tile of a map keeps: ground from generation, wall from the editor, growth only on tilled tiles. */
  predicate TileInRange(t: HexTileData) {
    t.groundHeight <= MAX_FLOOR_HEIGHT && t.wallHeight <= MAX_BRICK_HEIGHT && (t.isGrown ==> t.isTilled)
  }

  // ---------------------------------------------------------------------------
  // Random draws of generation

  /** Every height draw is in the range of `gen_range(0, MAX_FLOOR_HEIGHT + 1)`. */
  predicate HeightDrawsFit(draws: seq<u8>) {
    forall i | 0 <= i < |draws| :: draws[i] <= MAX_FLOOR_HEIGHT
  }

  /** The draws of one section of one pass: the row of the run, then the draws that make its length. */
  datatype SectionDraw = SectionDraw(row: nat, lengths: seq<int>)

  /** A row from `gen_range(0, height + 1)` and five lengths from `gen_range(3, 7 + 1)`. */
  predicate SectionDrawFits(d: SectionDraw, height: nat) {
    && d.row <= height
    && |d.lengths| == RUN_DRAWS
    && forall k | 0 <= k < |d.lengths| :: RUN_MIN <= d.lengths[k] <= RUN_MAX
  }

  /** One draw per pass and per whole section of the map. */
  predicate SectionDrawsFit(draws: seq<seq<SectionDraw>>, width: nat, height: nat) {
    && |draws| == PASSES
    && forall p | 0 <= p < |draws| ::
         && |draws[p]| == width / SECTION_WIDTH
         && forall s | 0 <= s < |draws[p]| :: SectionDrawFits(draws[p][s], height)
  }

  function Sum(s: seq<int>): int {
    if |s| == 0 then 0 else Sum(s[..|s| - 1]) + s[|s| - 1]
  }

  /** The length of a run: the integer average of its length draws. */
  function RunTotal(lengths: seq<int>): int {
    Sum(lengths) / RUN_DRAWS
  }

  lemma {:induction false} SumBounds(s: seq<int>)
    requires forall k | 0 <= k < |s| :: RUN_MIN <= s[k] <= RUN_MAX
    ensures RUN_MIN * |s| <= Sum(s) <= RUN_MAX * |s|
  {
    if |s| > 0 {
      SumBounds(s[..|s| - 1]);
    }
  }

  /** Every tilled run is 3 to 7 tiles long. */
  lemma RunTotalBounds(d: SectionDraw, height: nat)
    requires SectionDrawFits(d, height)
    ensures RUN_MIN <= RunTotal(d.lengths) <= RUN_MAX
  {
    SumBounds(d.lengths);
  }

  /** The tile index the run of a section starts at. */
  function RunStart(d: SectionDraw, width: nat, section: nat): int {
    d.row * width + section * SECTION_WIDTH
  }

  /** Index i is written by the run of `section` drawn as d. */
  predicate SegmentCovers(d: SectionDraw, width: nat, section: nat, i: int) {
    RunStart(d, width, section) <= i < RunStart(d, width, section) + RunTotal(d.lengths)
  }

  /** Index i is written by a run of a section that comes before section s of pass p. */
  ghost predicate TilledBefore(draws: seq<seq<SectionDraw>>, width: nat, p: int, s: int, i: int) {
    exists p', s' | 0 <= p' < |draws| && 0 <= s' < |draws[p']| && (p' < p || (p' == p && s' < s)) ::
      SegmentCovers(draws[p'][s'], width, s', i)
  }

  /** Index i is written by some run of generation. */
  ghost predicate TilledBy(draws: seq<seq<SectionDraw>>, width: nat, i: int) {
    TilledBefore(draws, width, |draws|, 0, i)
  }

  lemma TilledBeforeNextSection(draws: seq<seq<SectionDraw>>, width: nat, p: nat, s: nat, i: int)
    requires p < |draws| && s < |draws[p]|
    ensures TilledBefore(draws, width, p, s + 1, i)
        <==> TilledBefore(draws, width, p, s, i) || SegmentCovers(draws[p][s], width, s, i)
  {
    if SegmentCovers(draws[p][s], width, s, i) {
      assert TilledBefore(draws, width, p, s + 1, i);
    }
    if TilledBefore(draws, width, p, s + 1, i) && !SegmentCovers(draws[p][s], width, s, i) {
      var p', s' :| 0 <= p' < |draws| && 0 <= s' < |draws[p']| && (p' < p || (p' == p && s' < s + 1))
        && SegmentCovers(draws[p'][s'], width, s', i);
      assert p' < p || s' < s;
    }
  }

  lemma TilledBeforeNextPass(draws: seq<seq<SectionDraw>>, width: nat, p: nat, i: int)
    requires p < |draws|
    ensures TilledBefore(draws, width, p, |draws[p]|, i) <==> TilledBefore(draws, width, p + 1, 0, i)
  {
  }

  lemma MulLeftMono(w: nat, a: int, b: int)
    requires a <= b
    ensures w * a <= w * b
  {
    assert w * b - w * a == w * (b - a);
  }

  /** (row, column) inside a `width` x `height` grid is a valid row-major index. */
  lemma IndexInGrid(width: nat, height: nat, x: int, y: int)
    requires 0 <= x < width && 0 <= y < height
    ensures 0 <= width * y + x < width * height
  {
    MulLeftMono(width, y + 1, height);
    MulLeftMono(width, 0, y);
  }

  lemma ModOfRowColumn(width: nat, row: nat, col: nat)
    requires col < width
    ensures (row * width + col) % width == col
    ensures (row * width + col) / width == row
  {
    var i := row * width + col;
    var q, m := i / width, i % width;
    assert i == width * q + m;
    assert width * (q - row) == col - m;
    if q > row {
      MulLeftMono(width, 1, q - row);
    } else if q < row {
      MulLeftMono(width, 1, row - q);
    }
  }

  /**
   * The run of a section lies inside the section's first seven columns of its
   * row, and it is written entirely or skipped entirely: its indices are inside
   * the tile vector exactly when the drawn row is a row of the map (the draw
   * `height` puts it past the end).
   */
  lemma SegmentPlacement(d: SectionDraw, width: nat, height: nat, section: nat, i: int)
    requires SectionDrawFits(d, height)
    requires section < width / SECTION_WIDTH
    requires SegmentCovers(d, width, section, i)
    ensures i >= 0 && (i % width) / SECTION_WIDTH == section && (i % width) % SECTION_WIDTH < RUN_MAX
    ensures i < width * height <==> d.row < height
  {
    RunTotalBounds(d, height);
    var offset := i - RunStart(d, width, section);
    var col := section * SECTION_WIDTH + offset;
    assert col < width;
    ModOfRowColumn(width, d.row, col);
    if d.row < height {
      MulLeftMono(width, d.row + 1, height);
    } else {
      MulLeftMono(width, height, d.row);
    }
  }

  /** Every tile tilled by generation sits at a column c with c % 10 < 7. */
  lemma TilledColumn(draws: seq<seq<SectionDraw>>, width: nat, height: nat, i: int)
    requires SectionDrawsFit(draws, width, height)
    requires TilledBy(draws, width, i)
    ensures width > 0 && (i % width) % SECTION_WIDTH < RUN_MAX
  {
    var p, s :| 0 <= p < |draws| && 0 <= s < |draws[p]| && SegmentCovers(draws[p][s], width, s, i);
    SegmentPlacement(draws[p][s], width, height, s, i);
  }

  // ---------------------------------------------------------------------------
  // Generation, in the two phases of `HexMap::new`

  /** The first loop of `HexMap::new`: one new tile per height draw, keeping the running maximum. */
  method GenerateHeights(draws: seq<u8>) returns (tiles: seq<HexTileData>, tallest: u8)
    requires HeightDrawsFit(draws)
    ensures |tiles| == |draws|
    ensures forall i | 0 <= i < |tiles| :: tiles[i] == NewTile(draws[i])
    ensures forall i | 0 <= i < |tiles| :: tiles[i].wallHeight <= tallest
    ensures |tiles| == 0 ==> tallest == 0
    ensures |tiles| > 0 ==> exists i | 0 <= i < |tiles| :: tiles[i].wallHeight == tallest
  {
    tiles := [];
    tallest := 0;
    var n := 0;
    while n < |draws|
      invariant 0 <= n <= |draws|
      invariant |tiles| == n
      invariant forall i | 0 <= i < n :: tiles[i] == NewTile(draws[i])
      invariant forall i | 0 <= i < n :: tiles[i].wallHeight <= tallest
      invariant tallest == 0 || exists i | 0 <= i < n :: tiles[i].wallHeight == tallest
    {
      var value := draws[n];
      var tile := NewTile(value);
      tiles := tiles + [tile];
      if value > tallest {
        tallest := value;
      }
      n := n + 1;
    }
    if |tiles| > 0 && tallest == 0 {
      assert tiles[0].wallHeight == tallest;
    }
  }

  /**
   * The second phase of `HexMap::new`: in every pass and every whole section,
   * set `is_tilled` on the run the section's draws describe, skipping every
   * index past the end of the tile vector. Nothing else of any tile changes.
   */
  method TillSections(tiles: seq<HexTileData>, width: nat, height: nat, draws: seq<seq<SectionDraw>>)
    returns (t: seq<HexTileData>)
    requires SectionDrawsFit(draws, width, height)
    ensures |t| == |tiles|
    ensures forall i | 0 <= i < |t| :: t[i] == tiles[i].(isTilled := tiles[i].isTilled || TilledBy(draws, width, i))
  {
    t := tiles;
    var pass := 0;
    while pass < PASSES
      invariant 0 <= pass <= PASSES
      invariant |t| == |tiles|
      invariant forall i | 0 <= i < |t| ::
        t[i] == tiles[i].(isTilled := tiles[i].isTilled || TilledBefore(draws, width, pass, 0, i))
    {
      var section := 0;
      while section < width / SECTION_WIDTH
        invariant 0 <= section <= width / SECTION_WIDTH
        invariant |t| == |tiles|
        invariant forall i | 0 <= i < |t| ::
          t[i] == tiles[i].(isTilled := tiles[i].isTilled || TilledBefore(draws, width, pass, section, i))
      {
        var d := draws[pass][section];
        var row := d.row;
        var total := 0;
        var k := 0;
        while k < RUN_DRAWS
          invariant 0 <= k <= RUN_DRAWS
          invariant total == Sum(d.lengths[..k])
        {
          assert d.lengths[..k + 1][..k] == d.lengths[..k];
          total := total + d.lengths[k];
          k := k + 1;
        }
        assert d.lengths[..RUN_DRAWS] == d.lengths;
        total := total / RUN_DRAWS;
        RunTotalBounds(d, height);

        var start := row * width + section * SECTION_WIDTH;
        var offset := 0;
        while offset < total
          invariant 0 <= offset <= total
          invariant |t| == |tiles|
          invariant forall i | 0 <= i < |t| ::
            t[i] == tiles[i].(isTilled := tiles[i].isTilled || TilledBefore(draws, width, pass, section, i)
                                          || start <= i < start + offset)
        {
          var index := start + offset;
          if index < |t| {
            t := t[index := t[index].(isTilled := true)];
          }
          offset := offset + 1;
        }
        forall i | 0 <= i < |t|
          ensures t[i] == tiles[i].(isTilled := tiles[i].isTilled || TilledBefore(draws, width, pass, section + 1, i))
        {
          TilledBeforeNextSection(draws, width, pass, section, i);
        }
        section := section + 1;
      }
      forall i | 0 <= i < |t|
        ensures t[i] == tiles[i].(isTilled := tiles[i].isTilled || TilledBefore(draws, width, pass + 1, 0, i))
      {
        TilledBeforeNextPass(draws, width, pass, i);
      }
      pass := pass + 1;
    }
  }

  // ---------------------------------------------------------------------------
  // Depth scan of `pixel_to_hex`

  /**
   * The tile (x, y) probed at each depth. `rounded` stands for the float steps of
   * one probe at the fixed pixel and map position, as a function of the height
   * offset: `pixel_to_hex_raw`, s = -r - q, and the rounding of each component
   * with its rounding error (`RoundCube` models that last step on exact reals).
   * The integer correction of `cube_round` is applied to it here.
   */
  function Candidates(rounded: real -> RoundedCube): nat -> (int, int) {
    (depth: nat) =>
      var h := CubeRound(rounded(depth as real * FLOOR_DEPTH_STEP));
      (h.0, h.1)
  }

  /** The candidate at `depth` is on the map and its wall is exactly `depth` high. */
  predicate ConsistentAt(tiles: seq<HexTileData>, width: nat, height: nat, cand: nat -> (int, int), depth: nat) {
    OnMapWithWall(tiles, width, height, cand(depth), depth)
  }

  /** Cell (x, y) is on the map and its wall is `wall` high. */
  predicate OnMapWithWall(tiles: seq<HexTileData>, width: nat, height: nat, xy: (int, int), wall: int) {
    && 0 <= xy.0 < width && 0 <= xy.1 < height
    && 0 <= width * xy.1 + xy.0 < |tiles|
    && tiles[width * xy.1 + xy.0].wallHeight == wall
  }

  /** Reference definition of the scan: the highest consistent depth below n, searched from the top;
   * `pixel_to_hex` keeps it in `tallest_height`. */
  function TallestBelow(tiles: seq<HexTileData>, width: nat, height: nat, cand: nat -> (int, int), n: nat): Option<nat>
  {
    if n == 0 then None
    else if ConsistentAt(tiles, width, height, cand, n - 1) then Some(n - 1)
    else TallestBelow(tiles, width, height, cand, n - 1)
  }

  lemma TallestBelowStep(tiles: seq<HexTileData>, width: nat, height: nat, cand: nat -> (int, int), n: nat)
    ensures TallestBelow(tiles, width, height, cand, n + 1)
         == if ConsistentAt(tiles, width, height, cand, n) then Some(n) else TallestBelow(tiles, width, height, cand, n)
  {
  }

  /** A found depth is consistent and no higher depth below n is. */
  lemma {:induction false} TallestBelowSome(tiles: seq<HexTileData>, width: nat, height: nat, cand: nat -> (int, int), n: nat)
    requires TallestBelow(tiles, width, height, cand, n).Some?
    ensures var e := TallestBelow(tiles, width, height, cand, n).value;
      && e < n
      && ConsistentAt(tiles, width, height, cand, e)
      && forall e' | e < e' < n :: !ConsistentAt(tiles, width, height, cand, e')
  {
    if !ConsistentAt(tiles, width, height, cand, n - 1) {
      TallestBelowSome(tiles, width, height, cand, n - 1);
    }
  }

  /** The scan finds nothing exactly when no depth below n is consistent. */
  lemma {:induction false} TallestBelowNone(tiles: seq<HexTileData>, width: nat, height: nat, cand: nat -> (int, int), n: nat)
    ensures TallestBelow(tiles, width, height, cand, n).None?
        <==> forall e | 0 <= e < n :: !ConsistentAt(tiles, width, height, cand, e)
  {
    if n > 0 {
      TallestBelowNone(tiles, width, height, cand, n - 1);
    }
  }

  /**
   * When `tallest` bounds every wall, scanning the depths 0..=tallest is enough:
   * the result is the highest consistent depth of all, and None means no depth
   * at all gives an on-map candidate of that wall height.
   */
  lemma ScanCoversAllHeights(tiles: seq<HexTileData>, width: nat, height: nat, cand: nat -> (int, int), tallest: nat)
    requires forall i | 0 <= i < |tiles| :: tiles[i].wallHeight <= tallest
    ensures match TallestBelow(tiles, width, height, cand, tallest + 1)
      case None => forall e: nat :: !ConsistentAt(tiles, width, height, cand, e)
      case Some(e) =>
        var (x, y) := cand(e);
        && 0 <= x < width && 0 <= y < height
        && 0 <= width * y + x < |tiles|
        && tiles[width * y + x].wallHeight == e
        && forall e': nat | e' > e :: !ConsistentAt(tiles, width, height, cand, e')
  {
    TallestBelowNone(tiles, width, height, cand, tallest + 1);
    if TallestBelow(tiles, width, height, cand, tallest + 1).Some? {
      TallestBelowSome(tiles, width, height, cand, tallest + 1);
    }
  }

  // ---------------------------------------------------------------------------
  // The map

  /** `HexMap`: the row-major tiles, the grid size, the scroll position and the tallest wall. */
  class HexMap {
    var tiles: seq<HexTileData>
    const width: nat
    const height: nat
    var position: Vec2
    var tallest: u8

    /** The map's invariant: one tile per cell, every tile in range, `tallest` bounding every wall. */
    ghost predicate Valid()
      reads this
    {
      && |tiles| == width * height
      && tallest <= MAX_BRICK_HEIGHT
      && forall i | 0 <= i < |tiles| :: TileInRange(tiles[i]) && tiles[i].wallHeight <= tallest
    }

    /**
     * `HexMap::new(width, height)` with the random draws given: level tiles of
     * the drawn heights, tilled exactly where some run covers them, never grown;
     * `tallest` is the largest drawn height (0 for an empty map).
     */
    constructor (width: nat, height: nat, heightDraws: seq<u8>, sectionDraws: seq<seq<SectionDraw>>)
      requires |heightDraws| == width * height && HeightDrawsFit(heightDraws)
      requires SectionDrawsFit(sectionDraws, width, height)
      ensures this.width == width && this.height == height
      ensures Valid()
      ensures forall i | 0 <= i < |tiles| ::
        tiles[i] == NewTile(heightDraws[i]).(isTilled := TilledBy(sectionDraws, width, i))
      ensures forall i | 0 <= i < |tiles| :: tiles[i].isTilled ==> (i % width) % SECTION_WIDTH < RUN_MAX
      ensures |tiles| == 0 ==> tallest == 0
      ensures |tiles| > 0 ==> exists i | 0 <= i < |tiles| :: tiles[i].wallHeight == tallest
      ensures position == Vec2(0.0, 360.0 - height as real * FLOOR_VERT_STEP)
    {
      var t, top := GenerateHeights(heightDraws);
      t := TillSections(t, width, height, sectionDraws);
      forall i | 0 <= i < |t| && t[i].isTilled
        ensures (i % width) % SECTION_WIDTH < RUN_MAX
      {
        TilledColumn(sectionDraws, width, height, i);
      }
      this.tiles := t;
      this.width := width;
      this.height := height;
      this.position := Vec2(0.0, 360.0 - height as real * FLOOR_VERT_STEP);
      this.tallest := top;
    }

    /**
     * `pixel_to_hex`: probe the depths 0..=tallest, keep the in-bounds
     * candidates whose wall is as high as the depth probed, and return the
     * tallest of them; the result is the reference scan's.
     */
    method PixelToHex(rounded: real -> RoundedCube) returns (sel: Option<(int, int)>)
      requires |tiles| == width * height
      ensures match TallestBelow(tiles, width, height, Candidates(rounded), tallest + 1)
        case None => sel.None?
        case Some(e) => sel == Some(Candidates(rounded)(e))
    {
      ghost var cand := Candidates(rounded);
      var best: Option<(u8, int, int)> := None;
      var depth := 0;
      while depth <= tallest
        invariant 0 <= depth <= tallest + 1
        invariant best.None? <==> TallestBelow(tiles, width, height, cand, depth).None?
        invariant best.Some? ==>
          && best.value.0 < depth
          && TallestBelow(tiles, width, height, cand, depth) == Some(best.value.0 as nat)
          && (best.value.1, best.value.2) == cand(best.value.0)
      {
        ghost var hit := ConsistentAt(tiles, width, height, cand, depth);
        TallestBelowStep(tiles, width, height, cand, depth);
        var heightOffset := depth as real * FLOOR_DEPTH_STEP;
        var (x, y, _) := CubeRound(rounded(heightOffset));
        assert (x, y) == cand(depth);
        if 0 <= x < width && 0 <= y < height {
          IndexInGrid(width, height, x, y);
          var tileHeight := tiles[width * y + x].wallHeight;
          if tileHeight == depth {
            assert hit;
            if best.None? || tileHeight > best.value.0 {
              best := Some((tileHeight, x, y));
            }
          } else {
            assert !hit;
          }
        } else {
          assert !hit;
        }
        depth := depth + 1;
      }
      if best.Some? {
        sel := Some((best.value.1, best.value.2));
      } else {
        sel := None;
      }
    }
  }
}
