/** Where a mob may step: the next king move towards a target, and the wall test of that move. */
module Collision {

  const PLANE_LEVEL_INC := 944
  const ZONE_MAX_X := 450
  const ZONE_MAX_Y := 750
  const ZONE_MAX_PLANE := 4

  // x + 1 is west and y - 1 is north
  const NORTH := 0
  const NORTHWEST := 1
  const WEST := 2
  const SOUTHWEST := 3
  const SOUTH := 4
  const SOUTHEAST := 5
  const EAST := 6
  const NORTHEAST := 7
  const COMBAT_LEFT := 8
  const COMBAT_RIGHT := 9

  const ADJ_BLOCK_VERT: bv8 := 1
  const ADJ_BLOCK_HORIZ: bv8 := 2
  const ADJ_BLOCK_SIGHT_VERT: bv8 := 4
  const ADJ_BLOCK_SIGHT_HORIZ: bv8 := 8
  const ADJ_BLOCK: bv8 := 16
  const ADJ_BLOCK_SIGHT: bv8 := 32

  datatype Tile = Tile(x: int, y: int)

  /** adjacency[plane][x][y]; what a read outside the array yields is left open, so the grid is total. */
  type Grid = (int, int, int) -> bv8

  /** Everything a step is tested against: the wall grid and who stands where. */
  datatype World = World(grid: Grid, hardNpcOn: Tile -> bool, npcOn: Tile -> bool, playerOn: Tile -> bool)

  /** The flags of the walking mob that matter to a collision. */
  datatype Gait = Gait(isNpc: bool, actionWalk: bool)

  datatype Step = Step(to: Tile, dir: int)

  // ---- choosing a step ---------------------------------------------------------------------

  function Sign(n: int): int {
    if n < 0 then -1 else if n > 0 then 1 else 0
  }

  function Abs(n: int): nat {
    if n < 0 then -n else n
  }

  function Chebyshev(a: Tile, b: Tile): nat {
    var dx := Abs(a.x - b.x);
    var dy := Abs(a.y - b.y);
    if dx > dy then dx else dy
  }

  /** What each of the eight walking directions adds to x. */
  function DirX(dir: int): int {
    if dir in {NORTHWEST, WEST, SOUTHWEST} then 1 else if dir in {NORTHEAST, EAST, SOUTHEAST} then -1 else 0
  }

  /** What each of the eight walking directions adds to y. */
  function DirY(dir: int): int {
    if dir in {SOUTHWEST, SOUTH, SOUTHEAST} then 1 else if dir in {NORTHWEST, NORTH, NORTHEAST} then -1 else 0
  }

  /** mob_next_step */
  function NextStep(cur: Tile, curDir: int, target: Tile): (r: Step)
    ensures r.to == Tile(cur.x + Sign(target.x - cur.x), cur.y + Sign(target.y - cur.y))
    ensures cur == target ==> r.dir == curDir
    ensures cur != target ==> NORTH <= r.dir <= NORTHEAST && r.to == Tile(cur.x + DirX(r.dir), cur.y + DirY(r.dir))
    ensures cur != target ==> Chebyshev(r.to, target) == Chebyshev(cur, target) - 1
  {
    var difX := cur.x - target.x;
    var difY := cur.y - target.y;
    if difX == 0 then
      if difY > 0 then Step(Tile(cur.x, cur.y - 1), NORTH)
      else if difY < 0 then Step(Tile(cur.x, cur.y + 1), SOUTH)
      else Step(cur, curDir)
    else if difX < 0 then
      if difY == 0 then Step(Tile(cur.x + 1, cur.y), WEST)
      else if difY < 0 then Step(Tile(cur.x + 1, cur.y + 1), SOUTHWEST)
      else Step(Tile(cur.x + 1, cur.y - 1), NORTHWEST)
    else
      if difY == 0 then Step(Tile(cur.x - 1, cur.y), EAST)
      else if difY < 0 then Step(Tile(cur.x - 1, cur.y + 1), SOUTHEAST)
      else Step(Tile(cur.x - 1, cur.y - 1), NORTHEAST)
  }

  // ---- testing a step ----------------------------------------------------------------------

  /** C's truncating y / PLANE_LEVEL_INC. */
  function PlaneOf(y: int): int {
    if y < 0 then -(-y / PLANE_LEVEL_INC) else y / PLANE_LEVEL_INC
  }

  function BlockBit(sight: bool): bv8 { if sight then ADJ_BLOCK_SIGHT else ADJ_BLOCK }
  function VertBit(sight: bool): bv8 { if sight then ADJ_BLOCK_SIGHT_VERT else ADJ_BLOCK_VERT }
  function HorizBit(sight: bool): bv8 { if sight then ADJ_BLOCK_SIGHT_HORIZ else ADJ_BLOCK_HORIZ }

  /** The tests of mob_check_collision that read the direction: walls and cut corners. */
  predicate DirectionBlocked(grid: Grid, plane: int, curX: int, cy: int, x: int, ty: int, dir: int, sight: bool) {
    var block := BlockBit(sight);
    var v := VertBit(sight);
    var h := HorizBit(sight);
    if dir == NORTH then grid(plane, x, ty) & v != 0
    else if dir == SOUTH then grid(plane, x, cy) & v != 0
    else if dir == EAST then grid(plane, x, ty) & h != 0
    else if dir == WEST then grid(plane, curX, ty) & h != 0
    else if dir == NORTHWEST then
      || grid(plane, curX + 1, cy) & block != 0
      || grid(plane, curX, cy - 1) & block != 0
      || (grid(plane, curX, cy) & h != 0 && grid(plane, curX, cy - 1) & v != 0)
      || (grid(plane, curX, cy) & h != 0 && grid(plane, curX, cy - 1) & h != 0)
      || (grid(plane, curX + 1, cy - 1) & v != 0 && grid(plane, curX, cy - 1) & h != 0)
      || (grid(plane, curX + 1, cy - 1) & v != 0 && grid(plane, curX, cy - 1) & v != 0)
    else if dir == NORTHEAST then
      || grid(plane, curX - 1, cy) & block != 0
      || grid(plane, curX, cy - 1) & block != 0
      || (grid(plane, curX - 1, cy - 1) & h != 0 && grid(plane, curX - 1, cy - 1) & v != 0)
      || (grid(plane, curX - 1, cy) & h != 0 && grid(plane, curX - 1, cy - 1) & h != 0)
      || (grid(plane, curX - 1, cy - 1) & v != 0 && grid(plane, curX, cy - 1) & v != 0)
      || (grid(plane, curX, cy - 1) & v != 0 && grid(plane, curX - 1, cy) & h != 0)
    else if dir == SOUTHWEST then
      || grid(plane, curX + 1, cy) & block != 0
      || grid(plane, curX, cy + 1) & block != 0
      || (grid(plane, curX, cy) & h != 0 && grid(plane, curX, cy) & v != 0)
      || (grid(plane, curX, cy) & v != 0 && grid(plane, curX + 1, cy) & v != 0)
      || (grid(plane, curX, cy) & h != 0 && grid(plane, curX, cy + 1) & h != 0)
      || (grid(plane, curX + 1, cy) & v != 0 && grid(plane, curX, cy + 1) & h != 0)
    else if dir == SOUTHEAST then
      || grid(plane, curX - 1, cy) & block != 0
      || grid(plane, curX, cy + 1) & block != 0
      || (grid(plane, curX - 1, cy + 1) & h != 0 && grid(plane, curX - 1, cy) & v != 0)
      || (grid(plane, curX, cy) & v != 0 && grid(plane, curX - 1, cy) & v != 0)
      || (grid(plane, curX - 1, cy) & h != 0 && grid(plane, curX - 1, cy + 1) & h != 0)
      || (grid(plane, curX, cy) & v != 0 && grid(plane, curX - 1, cy) & h != 0)
    else false
  }

  /** mob_check_collision */
  predicate Collides(w: World, gait: Gait, cur: Tile, to: Tile, dir: int, sight: bool) {
    var plane := PlaneOf(cur.y);
    var cy := cur.y - plane * PLANE_LEVEL_INC;
    var ty := to.y - plane * PLANE_LEVEL_INC;
    || to.x >= ZONE_MAX_X || ty >= ZONE_MAX_Y || plane >= ZONE_MAX_PLANE
    || w.grid(plane, to.x, ty) & BlockBit(sight) != 0
    || (!sight && !gait.actionWalk && w.hardNpcOn(to))
    || (gait.isNpc && !sight && !gait.actionWalk && (w.npcOn(to) || w.playerOn(to)))
    || DirectionBlocked(w.grid, plane, cur.x, cy, to.x, ty, dir, sight)
  }

  // ---- what the wall bits mean -------------------------------------------------------------

  /** The tile is not blocked. */
  predicate Open(grid: Grid, plane: int, a: Tile, sight: bool) {
    grid(plane, a.x, a.y) & BlockBit(sight) == 0
  }

  /**
   * A wall stands between two tiles that share an edge. The bit of a vertical neighbour pair is kept on
   * the smaller y, the bit of a horizontal pair on the smaller x.
   */
  predicate Wall(grid: Grid, plane: int, a: Tile, b: Tile, sight: bool) {
    if a.x == b.x then
      grid(plane, a.x, if a.y < b.y then a.y else b.y) & VertBit(sight) != 0
    else
      grid(plane, if a.x < b.x then a.x else b.x, a.y) & HorizBit(sight) != 0
  }

  /** a to b by way of corner c, crossing no wall. */
  predicate RouteVia(grid: Grid, plane: int, a: Tile, c: Tile, b: Tile, sight: bool) {
    !Wall(grid, plane, a, c, sight) && !Wall(grid, plane, c, b, sight)
  }

  /** What a step between neighbouring tiles of one plane, in plane coordinates, must cross. */
  predicate Passable(grid: Grid, plane: int, a: Tile, b: Tile, sight: bool) {
    if a.x == b.x || a.y == b.y then
      !Wall(grid, plane, a, b, sight)
    else
      var c := Tile(b.x, a.y);
      var d := Tile(a.x, b.y);
      && Open(grid, plane, c, sight) && Open(grid, plane, d, sight)
      && (RouteVia(grid, plane, a, c, b, sight) || RouteVia(grid, plane, a, d, b, sight))
  }

  /** The coded case split says: both corner tiles open, and one of the two L-shaped routes crosses no wall. */
  lemma DirectionBlockedMeaning(grid: Grid, plane: int, a: Tile, dir: int, sight: bool)
    requires NORTH <= dir <= NORTHEAST
    ensures var b := Tile(a.x + DirX(dir), a.y + DirY(dir));
            DirectionBlocked(grid, plane, a.x, a.y, b.x, b.y, dir, sight) <==> !Passable(grid, plane, a, b, sight)
  {
  }

  /** The bits of a tile, as numbers: 16 or, for sight, 32 blocks it; 1 or 4 is its wall to the south, 2 or 8 to the west. */
  lemma BitsOfTile(grid: Grid, plane: int, a: Tile, sight: bool)
    ensures Open(grid, plane, a, sight) <==> grid(plane, a.x, a.y) & (if sight then 32 else 16) == 0
    ensures Wall(grid, plane, a, Tile(a.x, a.y + 1), sight) <==> grid(plane, a.x, a.y) & (if sight then 4 else 1) != 0
    ensures Wall(grid, plane, a, Tile(a.x + 1, a.y), sight) <==> grid(plane, a.x, a.y) & (if sight then 8 else 2) != 0
    ensures Wall(grid, plane, Tile(a.x, a.y + 1), a, sight) <==> Wall(grid, plane, a, Tile(a.x, a.y + 1), sight)
    ensures Wall(grid, plane, Tile(a.x + 1, a.y), a, sight) <==> Wall(grid, plane, a, Tile(a.x + 1, a.y), sight)
  {
  }

  function InPlane(a: Tile, plane: int): Tile {
    Tile(a.x, a.y - plane * PLANE_LEVEL_INC)
  }

  /** The part of a collision that does not depend on who stands where. */
  predicate StaticLegal(grid: Grid, cur: Tile, to: Tile, sight: bool) {
    var plane := PlaneOf(cur.y);
    var a := InPlane(cur, plane);
    var b := InPlane(to, plane);
    && b.x < ZONE_MAX_X && b.y < ZONE_MAX_Y && plane < ZONE_MAX_PLANE
    && Open(grid, plane, b, sight)
    && Passable(grid, plane, a, b, sight)
  }

  /** Who stands where keeps this mob off the tile. */
  predicate Occupied(w: World, gait: Gait, to: Tile) {
    !gait.actionWalk && (w.hardNpcOn(to) || (gait.isNpc && (w.npcOn(to) || w.playerOn(to))))
  }

  /** A step of mob_next_step collides exactly when the walls or the occupants forbid it. */
  lemma CollidesMeaning(w: World, gait: Gait, cur: Tile, curDir: int, target: Tile, sight: bool)
    requires cur != target
    ensures var s := NextStep(cur, curDir, target);
            Collides(w, gait, cur, s.to, s.dir, sight)
            <==> !(StaticLegal(w.grid, cur, s.to, sight) && (sight || !Occupied(w, gait, s.to)))
  {
    var s := NextStep(cur, curDir, target);
    DirectionBlockedMeaning(w.grid, PlaneOf(cur.y), InPlane(cur, PlaneOf(cur.y)), s.dir, sight);
  }

  /** A tile of the map proper: inside the array, so a mob can stand there. */
  predicate OnMap(a: Tile) {
    && 0 <= a.x < ZONE_MAX_X && 0 <= a.y
    && a.y % PLANE_LEVEL_INC < ZONE_MAX_Y && a.y / PLANE_LEVEL_INC < ZONE_MAX_PLANE
  }

  /** The map has four planes of 450 by 750 tiles, 944 rows apart. */
  lemma MapSize(a: Tile)
    ensures OnMap(a) <==> exists plane :: 0 <= plane < 4 && InPlaneBounds(a, plane)
  {
    if OnMap(a) {
      assert InPlaneBounds(a, a.y / 944);
    }
  }

  predicate InPlaneBounds(a: Tile, plane: int) {
    0 <= a.x < 450 && 944 * plane <= a.y < 944 * plane + 750
  }

  predicate Neighbours(a: Tile, b: Tile) {
    Chebyshev(a, b) == 1 && a.y / PLANE_LEVEL_INC == b.y / PLANE_LEVEL_INC
  }

  /** Walls have no direction: between two standable tiles a step is legal one way iff it is the other. */
  lemma StaticLegalSymmetric(grid: Grid, a: Tile, b: Tile, sight: bool)
    requires OnMap(a) && OnMap(b) && Neighbours(a, b)
    requires Open(grid, PlaneOf(a.y), InPlane(a, PlaneOf(a.y)), sight)
    requires Open(grid, PlaneOf(b.y), InPlane(b, PlaneOf(b.y)), sight)
    ensures StaticLegal(grid, a, b, sight) <==> StaticLegal(grid, b, a, sight)
  {
    var plane := PlaneOf(a.y);
    assert InPlane(a, plane).y == a.y % PLANE_LEVEL_INC && InPlane(b, plane).y == b.y % PLANE_LEVEL_INC;
    PassableSymmetric(grid, plane, InPlane(a, plane), InPlane(b, plane), sight);
  }

  lemma PassableSymmetric(grid: Grid, plane: int, a: Tile, b: Tile, sight: bool)
    ensures Passable(grid, plane, a, b, sight) <==> Passable(grid, plane, b, a, sight)
  {
  }

  /** Every one of the six bits set in l is set in m. */
  predicate SubBits(l: bv8, m: bv8) {
    && (m & ADJ_BLOCK_VERT == 0 ==> l & ADJ_BLOCK_VERT == 0)
    && (m & ADJ_BLOCK_HORIZ == 0 ==> l & ADJ_BLOCK_HORIZ == 0)
    && (m & ADJ_BLOCK_SIGHT_VERT == 0 ==> l & ADJ_BLOCK_SIGHT_VERT == 0)
    && (m & ADJ_BLOCK_SIGHT_HORIZ == 0 ==> l & ADJ_BLOCK_SIGHT_HORIZ == 0)
    && (m & ADJ_BLOCK == 0 ==> l & ADJ_BLOCK == 0)
    && (m & ADJ_BLOCK_SIGHT == 0 ==> l & ADJ_BLOCK_SIGHT == 0)
  }

  /** less has no wall or block bit that more has not. */
  ghost predicate Weaker(less: Grid, more: Grid) {
    forall p, x, y :: SubBits(less(p, x, y), more(p, x, y))
  }

  /** Taking wall and block bits away never makes a legal step illegal. */
  lemma StaticLegalMonotone(less: Grid, more: Grid, cur: Tile, to: Tile, sight: bool)
    requires Weaker(less, more)
    requires StaticLegal(more, cur, to, sight)
    ensures StaticLegal(less, cur, to, sight)
  {
    var plane := PlaneOf(cur.y);
    var a := InPlane(cur, plane);
    var b := InPlane(to, plane);
    assert Open(less, plane, b, sight);
    if a.x == b.x || a.y == b.y {
      WallMonotone(less, more, plane, a, b, sight);
    } else {
      var c := Tile(b.x, a.y);
      var d := Tile(a.x, b.y);
      WallMonotone(less, more, plane, a, c, sight);
      WallMonotone(less, more, plane, c, b, sight);
      WallMonotone(less, more, plane, a, d, sight);
      WallMonotone(less, more, plane, d, b, sight);
      assert Open(less, plane, c, sight) && Open(less, plane, d, sight);
    }
  }

  lemma WallMonotone(less: Grid, more: Grid, plane: int, a: Tile, b: Tile, sight: bool)
    requires Weaker(less, more)
    ensures Wall(less, plane, a, b, sight) ==> Wall(more, plane, a, b, sight)
  {
  }
}
