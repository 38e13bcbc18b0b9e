/**
 * Per-tick systems that change the map: the mouse tile editor and the
 * countdown that scrolls the map one whole pixel at a time.
 */
module Systems {
  import opened Consts
  import opened Wrappers
  import opened Hex
  import opened HexMaps

  // ---------------------------------------------------------------------------
  // Tile editor

  /**
   * The edit rules of `update_hex_map` for one tile. A left click lowers the
   * higher of ground and wall (both when level); a right click, only without a
   * left click, raises the wall: to one above the ground when the ground is
   * higher, else by one while below MAX_BRICK_HEIGHT. The requires excludes the
   * one `u8` overflow (`ground_height + 1` at 255), which the map invariant rules out.
   */
  function EditTile(t: HexTileData, left: bool, right: bool): (r: HexTileData)
    requires left || !right || t.groundHeight <= t.wallHeight || t.groundHeight < 255
    ensures r.isTilled == t.isTilled && r.isGrown == t.isGrown
  {
    if left then
      if t.groundHeight > t.wallHeight && t.groundHeight > 0 then
        t.(groundHeight := t.groundHeight - 1)
      else if t.wallHeight > t.groundHeight && t.wallHeight > 0 then
        t.(wallHeight := t.wallHeight - 1)
      else if t.wallHeight == t.groundHeight && t.wallHeight > 0 then
        t.(wallHeight := t.wallHeight - 1, groundHeight := t.groundHeight - 1)
      else
        t
    else if right then
      if t.groundHeight > t.wallHeight then
        t.(wallHeight := t.groundHeight + 1)
      else if t.wallHeight >= t.groundHeight && t.wallHeight < MAX_BRICK_HEIGHT then
        t.(wallHeight := t.wallHeight + 1)
      else
        t
    else
      t
  }

  /** A left click lowers exactly the higher height by one (both when level and above 0); at 0 it does nothing. */
  lemma LeftClick(t: HexTileData, right: bool)
    ensures var r := EditTile(t, true, right);
      && (t.groundHeight > t.wallHeight ==>
            r == t.(groundHeight := t.groundHeight - 1))
      && (t.wallHeight > t.groundHeight ==>
            r == t.(wallHeight := t.wallHeight - 1))
      && (t.wallHeight == t.groundHeight > 0 ==>
            r == t.(groundHeight := t.groundHeight - 1, wallHeight := t.wallHeight - 1))
      && (t.wallHeight == t.groundHeight == 0 ==> r == t)
      && r.groundHeight <= t.groundHeight && r.wallHeight <= t.wallHeight
  {
  }

  /** A right click never changes the ground and never lowers the wall. */
  lemma RightClick(t: HexTileData)
    requires t.groundHeight <= t.wallHeight || t.groundHeight < 255
    ensures var r := EditTile(t, false, true);
      && r.groundHeight == t.groundHeight
      && (t.groundHeight > t.wallHeight ==> r.wallHeight == t.groundHeight + 1)
      && (t.groundHeight <= t.wallHeight < MAX_BRICK_HEIGHT ==> r.wallHeight == t.wallHeight + 1)
      && (t.groundHeight <= t.wallHeight && t.wallHeight >= MAX_BRICK_HEIGHT ==> r == t)
      && r.wallHeight >= t.wallHeight
  {
  }

  /** Without a click nothing changes. */
  lemma NoClick(t: HexTileData)
    ensures EditTile(t, false, false) == t
  {
  }

  /**
   * Editing keeps a tile in range (ground at most MAX_FLOOR_HEIGHT, wall at most
   * MAX_BRICK_HEIGHT), and a wall that is not below its ground stays so.
   */
  lemma EditKeepsRange(t: HexTileData, left: bool, right: bool)
    requires TileInRange(t)
    ensures TileInRange(EditTile(t, left, right))
    ensures t.groundHeight <= t.wallHeight ==> EditTile(t, left, right).groundHeight <= EditTile(t, left, right).wallHeight
  {
  }

  /**
   * `update_hex_map`: find the tile under the mouse, edit it by the click rules
   * and raise `tallest` to its new wall when that is higher. Only the selected
   * tile's heights change; without a selection the map is unchanged.
   */
  method UpdateHexMap(hexMap: HexMap, leftPressed: bool, rightPressed: bool, rounded: real -> RoundedCube)
    requires hexMap.Valid()
    modifies hexMap`tiles, hexMap`tallest
    ensures hexMap.Valid()
    ensures hexMap.tallest >= old(hexMap.tallest)
    ensures match TallestBelow(old(hexMap.tiles), hexMap.width, hexMap.height, Candidates(rounded), old(hexMap.tallest) + 1)
      case None =>
        hexMap.tiles == old(hexMap.tiles) && hexMap.tallest == old(hexMap.tallest)
      case Some(e) =>
        var cell := Candidates(rounded)(e);
        EditedAt(old(hexMap.tiles), old(hexMap.tallest), hexMap.tiles, hexMap.tallest,
                 hexMap.width * cell.1 + cell.0, leftPressed, rightPressed)
  {
    ScanCoversAllHeights(hexMap.tiles, hexMap.width, hexMap.height, Candidates(rounded), hexMap.tallest);
    var hex := hexMap.PixelToHex(rounded);
    if hex.None? {
      return;
    }
    var (x, y) := hex.value;
    ghost var e := TallestBelow(hexMap.tiles, hexMap.width, hexMap.height, Candidates(rounded), hexMap.tallest + 1).value;
    assert (x, y) == Candidates(rounded)(e);
    EditSelected(hexMap, x, y, leftPressed, rightPressed);
  }

  /**
   * The map after editing the tile at `index` is the old map with that tile
   * edited, and `tallest` is the larger of the old `tallest` and its new wall.
   */
  ghost predicate EditedAt(tiles: seq<HexTileData>, tallest: u8, tiles': seq<HexTileData>, tallest': u8,
                           index: int, left: bool, right: bool)
  {
    && 0 <= index < |tiles|
    && (left || !right || tiles[index].groundHeight <= tiles[index].wallHeight || tiles[index].groundHeight < 255)
    && tiles' == tiles[index := EditTile(tiles[index], left, right)]
    && tallest' == if tiles'[index].wallHeight > tallest then tiles'[index].wallHeight else tallest
  }

  /** The part of `update_hex_map` after the selection: edit tile (x, y), then bump `tallest`. */
  method EditSelected(hexMap: HexMap, x: int, y: int, leftPressed: bool, rightPressed: bool)
    requires hexMap.Valid()
    requires 0 <= x < hexMap.width && 0 <= y < hexMap.height
    modifies hexMap`tiles, hexMap`tallest
    ensures hexMap.Valid()
    ensures EditedAt(old(hexMap.tiles), old(hexMap.tallest), hexMap.tiles, hexMap.tallest,
                     hexMap.width * y + x, leftPressed, rightPressed)
  {
    var mapWidth := hexMap.width;
    var index := y * mapWidth + x;
    assert index == hexMap.width * y + x;
    IndexInGrid(hexMap.width, hexMap.height, x, y);
    EditKeepsRange(hexMap.tiles[index], leftPressed, rightPressed);
    var tile := EditTile(hexMap.tiles[index], leftPressed, rightPressed);
    hexMap.tiles := hexMap.tiles[index := tile];

    var height := tile.wallHeight;
    if height > hexMap.tallest {
      hexMap.tallest := height;
    }
  }

  // ---------------------------------------------------------------------------
  // Scrolling

  /** The whole pixels the drain loop of `scroll_map` takes out of `stored`. */
  function WholeUnits(stored: real): (n: int)
    ensures n >= 0
    ensures stored >= 0.0 ==> 0.0 <= stored - n as real < 1.0
    ensures stored < 1.0 ==> n == 0
  {
    if stored >= 1.0 then stored.Floor else 0
  }

  /** `CamScroller`: a countdown `cur` refilled from `max`, and the scroll distance `stored` not yet applied. */
  class CamScroller {
    var cur: int
    const max: int
    var stored: real

    /** `CamScroller::new(max)`: the countdown starts full and nothing is stored. */
    constructor (max: int)
      ensures cur == max && this.max == max && stored == 0.0
    {
      this.cur := max;
      this.max := max;
      this.stored := 0.0;
    }
  }

  /**
   * `scroll_map`: at the end of a countdown store SCROLL_RATE more pixels and
   * refill it, else count down by one; then move the map left by every whole
   * pixel stored. What is moved equals what leaves `stored`, a fraction below 1
   * stays, and the map never moves right.
   */
  method ScrollMap(scroller: CamScroller, hexMap: HexMap)
    modifies scroller, hexMap`position
    ensures scroller.cur == if old(scroller.cur) <= 0 then scroller.max else old(scroller.cur) - 1
    ensures var added := if old(scroller.cur) <= 0 then old(scroller.stored) + SCROLL_RATE else old(scroller.stored);
      && scroller.stored == added - WholeUnits(added) as real
      && hexMap.position == old(hexMap.position).(x := old(hexMap.position.x) - WholeUnits(added) as real)
      && added - scroller.stored == old(hexMap.position.x) - hexMap.position.x
    ensures old(scroller.stored) >= 0.0 ==> 0.0 <= scroller.stored < 1.0
    ensures hexMap.position.x <= old(hexMap.position.x)
    ensures old(scroller.stored) == 0.0 ==> scroller.stored == 0.0
  {
    if scroller.cur <= 0 {
      scroller.stored := scroller.stored + SCROLL_RATE;
      scroller.cur := scroller.max;
    } else {
      scroller.cur := scroller.cur - 1;
    }

    ghost var added := scroller.stored;
    ghost var drained := 0;
    while scroller.stored >= 1.0
      invariant 0 <= drained
      invariant scroller.stored == added - drained as real
      invariant hexMap.position == old(hexMap.position).(x := old(hexMap.position.x) - drained as real)
      invariant drained > 0 ==> scroller.stored >= 0.0
      invariant added < 1.0 ==> drained == 0
      invariant scroller.cur == if old(scroller.cur) <= 0 then scroller.max else old(scroller.cur) - 1
      decreases scroller.stored.Floor
    {
      scroller.stored := scroller.stored - 1.0;
      hexMap.position := hexMap.position.(x := hexMap.position.x - 1.0);
      drained := drained + 1;
    }
    assert drained == WholeUnits(added);
  }
}
