/** What holds of every tick and of every run of the walk queue. */
module WalkProofs {
  import opened Collision
  import opened Walk

  // ---- tiles connected without crossing a wall ---------------------------------------------

  /** A step across one tile edge, inside one plane, through no wall, onto an unblocked tile of the map. */
  ghost predicate CardinalStep(grid: Grid, a: Tile, b: Tile) {
    Abs(a.x - b.x) + Abs(a.y - b.y) == 1 && PlaneOf(a.y) == PlaneOf(b.y) && StaticLegal(grid, a, b, false)
  }

  ghost predicate Route(grid: Grid, path: seq<Tile>) {
    |path| > 0 && forall i :: 0 <= i < |path| - 1 ==> CardinalStep(grid, path[i], path[i + 1])
  }

  ghost predicate RouteBetween(grid: Grid, path: seq<Tile>, a: Tile, b: Tile) {
    Route(grid, path) && path[0] == a && path[|path| - 1] == b
  }

  ghost predicate Connected(grid: Grid, a: Tile, b: Tile) {
    exists path :: RouteBetween(grid, path, a, b)
  }

  lemma ConnectedStep(grid: Grid, a: Tile, b: Tile)
    requires CardinalStep(grid, a, b)
    ensures Connected(grid, a, b)
  {
    assert RouteBetween(grid, [a, b], a, b);
  }

  lemma ConnectedSelf(grid: Grid, a: Tile)
    ensures Connected(grid, a, a)
  {
    assert RouteBetween(grid, [a], a, a);
  }

  lemma ConnectedTransitive(grid: Grid, a: Tile, b: Tile, c: Tile)
    requires Connected(grid, a, b) && Connected(grid, b, c)
    ensures Connected(grid, a, c)
  {
    var p :| RouteBetween(grid, p, a, b);
    var q :| RouteBetween(grid, q, b, c);
    var r := p + q[1..];
    forall i | 0 <= i < |r| - 1
      ensures CardinalStep(grid, r[i], r[i + 1])
    {
      if i < |p| - 1 {
        assert CardinalStep(grid, p[i], p[i + 1]);
      } else {
        assert CardinalStep(grid, q[i + 1 - |p|], q[i + 2 - |p|]);
      }
    }
    assert RouteBetween(grid, r, a, c);
  }

  /** Routes never leave the plane they start on. */
  lemma {:induction false} RouteKeepsPlane(grid: Grid, path: seq<Tile>, i: nat)
    requires Route(grid, path) && i < |path|
    ensures PlaneOf(path[i].y) == PlaneOf(path[0].y)
    decreases i
  {
    if i != 0 {
      RouteKeepsPlane(grid, path, i - 1);
      assert CardinalStep(grid, path[i - 1], path[i]);
    }
  }

  lemma ConnectedKeepsPlane(grid: Grid, a: Tile, b: Tile)
    requires Connected(grid, a, b)
    ensures PlaneOf(a.y) == PlaneOf(b.y)
  {
    var p :| RouteBetween(grid, p, a, b);
    RouteKeepsPlane(grid, p, |p| - 1);
  }

  /** A legal step, diagonal or not, stays among the connected tiles. */
  lemma StaticLegalConnected(grid: Grid, a: Tile, b: Tile)
    requires OnMap(a) && OnMap(b) && Neighbours(a, b)
    requires StaticLegal(grid, a, b, false)
    ensures Connected(grid, a, b)
  {
    if a.x == b.x || a.y == b.y {
      ConnectedStep(grid, a, b);
    } else {
      var plane := PlaneOf(a.y);
      var c := Tile(b.x, a.y);
      var d := Tile(a.x, b.y);
      if RouteVia(grid, plane, InPlane(a, plane), InPlane(c, plane), InPlane(b, plane), false) {
        CornerConnected(grid, a, c, b);
      } else {
        CornerConnected(grid, a, d, b);
      }
    }
  }

  lemma CornerConnected(grid: Grid, a: Tile, c: Tile, b: Tile)
    requires CardinalStep(grid, a, c) && CardinalStep(grid, c, b)
    ensures Connected(grid, a, b)
  {
    ConnectedStep(grid, a, c);
    ConnectedStep(grid, c, b);
    ConnectedTransitive(grid, a, c, b);
  }

  // ---- one tick ------------------------------------------------------------------------------

  /** The waypoint a tick walks towards, if it gets to walk. */
  function Goal(s: MobState, o: Others): Option<Tile>
    requires Valid(s)
  {
    if Fighting(s) || Waits(s, o) then None
    else
      var r := Retarget(s, o);
      if r.pos == r.len then None else Some(r.Waypoint(r.pos))
  }

  /** The waypoint lies north of a mob that stands on the northern edge of its plane. */
  predicate StepsOffPlane(at: Tile, goal: Tile) {
    at.y % PLANE_LEVEL_INC == 0 && goal.y < at.y
  }

  /** The walk of a tick keeps inside the map of the mob's plane. */
  predicate KeepsPlane(s: MobState, o: Others)
    requires Valid(s)
  {
    var g := Goal(s, o);
    g.Some? ==> g.value.x >= 0 && g.value.y >= 0 && !StepsOffPlane(s.at, g.value)
  }

  lemma RetargetKeeps(s: MobState, o: Others)
    requires Valid(s)
    ensures var r := Retarget(s, o);
            && Valid(r) && r.at == s.at && r.dir == s.dir && r.moved == s.moved && r.gait == s.gait
            && r.inCombat == s.inCombat && (NotFollowing(s) ==> r == s)
  {
  }

  lemma ResetKeeps(s: MobState)
    ensures var r := CombatReset(s);
            && r.at == s.at && r.moved == s.moved && r.gait == s.gait && r.queueX == s.queueX && r.queueY == s.queueY
            && NotFollowing(r)
  {
  }

  lemma FaceKeeps(s: MobState, to: Tile)
    ensures var r := Face(s, to);
            && r == s.(dir := r.dir) && (s.moved ==> r == s)
  {
  }

  lemma AdvanceMotion(s: MobState, w: World, o: Others)
    requires Valid(s)
    ensures Motion(s, Advance(s, w, o).0)
  {
    hide Collides, NextStep, Chebyshev, StopsBefore, CombatReset, Face, CaughtBy;
    ResetKeeps(s);
    if s.pos < s.len {
      FaceKeeps(Stopped(s), s.Waypoint(s.pos));
    }
  }

  /** The queue is in its bounds; a move is one king step in the stored direction, and is flagged. */
  ghost predicate Motion(s: MobState, t: MobState) {
    && Valid(t) && t.gait == s.gait
    && (t.at != s.at ==>
          && t.moved && NORTH <= t.dir <= NORTHEAST
          && t.at == Tile(s.at.x + DirX(t.dir), s.at.y + DirY(t.dir)))
    && (t.at == s.at ==> t.moved == s.moved && (s.moved && !s.inCombat ==> t.dir == s.dir))
  }

  lemma TickMotion(s: MobState, w: World, o: Others)
    requires Valid(s)
    ensures Motion(s, Tick(s, w, o).0)
    ensures Tick(s, w, o).0.pos <= Tick(s, w, o).0.len <= 16
  {
    hide Advance, Retarget;
    RetargetKeeps(s, o);
    AdvanceMotion(Retarget(s, o), w, o);
  }

  lemma AdvanceStep(s: MobState, w: World, o: Others)
    requires Valid(s)
    requires Advance(s, w, o).0.at != s.at
    ensures s.pos < s.len
    ensures var step := NextStep(s.at, s.dir, s.Waypoint(s.pos));
            Advance(s, w, o).0.at == step.to && !Collides(w, s.gait, s.at, step.to, step.dir, false)
  {
    hide Collides, NextStep, Chebyshev, StopsBefore;
  }

  /** A tick that moves the mob made the step of mob_next_step, and the walls allowed it. */
  lemma TickStep(s: MobState, w: World, o: Others)
    requires Valid(s)
    ensures Tick(s, w, o).0.at != s.at ==>
              && Goal(s, o).Some?
              && Tick(s, w, o).0.at == NextStep(s.at, s.dir, Goal(s, o).value).to
              && StaticLegal(w.grid, s.at, Tick(s, w, o).0.at, false)
  {
    hide Collides, NextStep, StaticLegal, Advance, Retarget, Chebyshev;
    var r := Retarget(s, o);
    RetargetKeeps(s, o);
    if Tick(s, w, o).0.at != s.at {
      AdvanceStep(r, w, o);
      CollidesMeaning(w, s.gait, s.at, s.dir, r.Waypoint(r.pos), false);
    }
  }

  /** Off the map array's rows nothing protects a walk: exactly the moves off the plane's northern edge leave the map. */
  lemma StepKeepsMap(at: Tile, dir: int, goal: Tile, grid: Grid)
    requires OnMap(at) && goal.x >= 0 && goal.y >= 0 && at != goal
    requires StaticLegal(grid, at, NextStep(at, dir, goal).to, false)
    ensures var to := NextStep(at, dir, goal).to;
            (OnMap(to) && Neighbours(at, to)) <==> !StepsOffPlane(at, goal)
    ensures StepsOffPlane(at, goal) ==> PlaneOf(NextStep(at, dir, goal).to.y) != PlaneOf(at.y)
  {
    hide Passable, Open;
    var to := NextStep(at, dir, goal).to;
    var plane := at.y / PLANE_LEVEL_INC;
    var cy := at.y - plane * PLANE_LEVEL_INC;
    assert cy == at.y % PLANE_LEVEL_INC;
    if StepsOffPlane(at, goal) {
      assert to.y == plane * PLANE_LEVEL_INC - 1;
    } else {
      assert 0 <= cy + (to.y - at.y) < ZONE_MAX_Y;
      assert to.y / PLANE_LEVEL_INC == plane;
    }
  }

  /**
   * Safety of one tick, exactly: a mob that moves has moved to a tile connected to its own without crossing
   * a wall, unless it walked north off the edge of its plane.
   */
  lemma TickSafeIff(s: MobState, w: World, o: Others)
    requires Valid(s) && OnMap(s.at)
    requires Goal(s, o).Some? ==> Goal(s, o).value.x >= 0 && Goal(s, o).value.y >= 0
    ensures var t := Tick(s, w, o).0;
            t.at != s.at ==> Goal(s, o).Some?
                             && (Connected(w.grid, s.at, t.at) <==> !StepsOffPlane(s.at, Goal(s, o).value))
    ensures KeepsPlane(s, o) ==> OnMap(Tick(s, w, o).0.at)
  {
    hide Tick, StaticLegal, NextStep, Connected;
    var t := Tick(s, w, o).0;
    if t.at != s.at {
      TickStep(s, w, o);
      var goal := Goal(s, o).value;
      StepKeepsMap(s.at, s.dir, goal, w.grid);
      if StepsOffPlane(s.at, goal) {
        if Connected(w.grid, s.at, t.at) {
          ConnectedKeepsPlane(w.grid, s.at, t.at);
        }
      } else {
        StaticLegalConnected(w.grid, s.at, t.at);
      }
    }
  }

  /** An open map, and a mob on the north edge of plane 1 sent north: it walks out of the map. */
  lemma OffPlaneWalk(s: MobState, w: World, o: Others)
    requires Valid(s) && s.pos < s.len && !s.inCombat && s.followingPlayer == -1 && s.followingNpc == -1
    requires s.at == Tile(100, 944) && s.Waypoint(s.pos) == Tile(100, 940)
    requires w.grid == ((p: int, x: int, y: int) => 0) && !w.hardNpcOn(Tile(100, 943)) && !s.gait.isNpc
    ensures OnMap(s.at) && Tick(s, w, o).0.at == Tile(100, 943) && !OnMap(Tile(100, 943))
    ensures !Connected(w.grid, s.at, Tick(s, w, o).0.at)
  {
    var t := Tick(s, w, o).0;
    assert t.at == Tile(100, 943);
    if Connected(w.grid, s.at, t.at) {
      ConnectedKeepsPlane(w.grid, s.at, t.at);
    }
  }

  // ---- runs ----------------------------------------------------------------------------------

  /** One call of mob_process_walk_queue: the mob as it is found, and the world it walks in. */
  datatype Call = Call(s: MobState, w: World, o: Others)

  /** Call i finds the mob on tiles[i] and leaves it on tiles[i + 1]; all else may change between calls. */
  ghost predicate IsRun(grid: Grid, run: seq<Call>, tiles: seq<Tile>) {
    && |tiles| == |run| + 1
    && forall i :: 0 <= i < |run| ==> IsCall(grid, run[i], tiles[i], tiles[i + 1])
  }

  ghost predicate IsCall(grid: Grid, c: Call, from: Tile, to: Tile) {
    Valid(c.s) && c.w.grid == grid && c.s.at == from && Tick(c.s, c.w, c.o).0.at == to && KeepsPlane(c.s, c.o)
  }

  /**
   * Safety of every run: whatever queues, follow targets, fights and occupants each tick finds, a mob never
   * leaves the tiles connected to its start.
   */
  lemma {:induction false} RunSafe(grid: Grid, run: seq<Call>, tiles: seq<Tile>, n: nat)
    requires IsRun(grid, run, tiles) && n <= |run| && OnMap(tiles[0])
    ensures Connected(grid, tiles[0], tiles[n]) && OnMap(tiles[n])
    decreases n
  {
    hide Tick, KeepsPlane, Connected, OnMap;
    if n == 0 {
      ConnectedSelf(grid, tiles[0]);
    } else {
      RunSafe(grid, run, tiles, n - 1);
      var c := run[n - 1];
      assert IsCall(grid, c, tiles[n - 1], tiles[n]);
      KeepsPlaneGoal(c.s, c.o);
      TickSafeIff(c.s, c.w, c.o);
      if tiles[n] == tiles[n - 1] {
        ConnectedSelf(grid, tiles[n]);
      }
      ConnectedTransitive(grid, tiles[0], tiles[n - 1], tiles[n]);
    }
  }

  lemma KeepsPlaneGoal(s: MobState, o: Others)
    requires Valid(s) && KeepsPlane(s, o)
    ensures Goal(s, o).Some? ==> Goal(s, o).value.x >= 0 && Goal(s, o).value.y >= 0
                                 && !StepsOffPlane(s.at, Goal(s, o).value)
  {
  }

  // ---- a queue empties -----------------------------------------------------------------------

  /** The king moves between the waypoints i, i+1, ... of the queue. */
  function Legs(s: MobState, i: nat): nat
    requires Valid(s)
    decreases s.len - i
  {
    if i + 1 >= s.len then 0 else Chebyshev(s.Waypoint(i), s.Waypoint(i + 1)) + Legs(s, i + 1)
  }

  /** The king moves left to walk, plus one for each waypoint left. */
  function Pending(s: MobState): nat
    requires Valid(s)
  {
    if s.pos == s.len then 0
    else Chebyshev(s.at, s.Waypoint(s.pos)) + Legs(s, s.pos) + (s.len - s.pos)
  }

  predicate NotFollowing(s: MobState) {
    s.followingPlayer == -1 && s.followingNpc == -1
  }

  lemma {:induction false} LegsDependOnQueue(s: MobState, t: MobState, i: nat)
    requires Valid(s) && Valid(t) && s.queueX == t.queueX && s.queueY == t.queueY && s.len == t.len
    ensures Legs(s, i) == Legs(t, i)
    decreases s.len - i
  {
    if i + 1 < s.len {
      LegsDependOnQueue(s, t, i + 1);
    }
  }

  /** The queue is cleared, or loses a waypoint, or its waypoint is one king move closer. */
  ghost predicate Progress(s: MobState, t: MobState)
    requires Valid(s)
  {
    && Valid(t) && NotFollowing(t)
    && (|| t.pos == t.len
        || (t.len == s.len && t.queueX == s.queueX && t.queueY == s.queueY && s.pos < s.len
            && (|| (t.pos == s.pos + 1 && t.at == s.Waypoint(s.pos))
                || (t.pos == s.pos
                    && Chebyshev(t.at, s.Waypoint(s.pos)) == Chebyshev(s.at, s.Waypoint(s.pos)) - 1))))
  }

  lemma AdvanceProgress(s: MobState, w: World, o: Others)
    requires Valid(s) && NotFollowing(s)
    ensures Progress(s, Advance(s, w, o).0)
  {
    hide Collides, NextStep, Chebyshev, StopsBefore, CombatReset, Face, CaughtBy;
    ResetKeeps(s);
    if s.pos < s.len {
      FaceKeeps(Stopped(s), s.Waypoint(s.pos));
    }
  }

  lemma TickProgress(s: MobState, w: World, o: Others)
    requires Valid(s) && NotFollowing(s)
    ensures Progress(s, Tick(s, w, o).0)
  {
    hide Advance, Retarget;
    RetargetKeeps(s, o);
    AdvanceProgress(s, w, o);
  }

  lemma PendingDecreases(s: MobState, w: World, o: Others)
    requires Valid(s) && NotFollowing(s)
    ensures Valid(Tick(s, w, o).0) && NotFollowing(Tick(s, w, o).0)
    ensures Pending(Tick(s, w, o).0) <= if Pending(s) == 0 then 0 else Pending(s) - 1
  {
    hide Tick;
    var t := Tick(s, w, o).0;
    TickProgress(s, w, o);
    if s.pos == s.len {
      IdleStays(s, w, o);
    } else if t.pos != t.len {
      LegsDependOnQueue(s, t, t.pos);
    }
  }

  lemma IdleStays(s: MobState, w: World, o: Others)
    requires Valid(s) && NotFollowing(s) && s.pos == s.len
    ensures Tick(s, w, o).0.pos == Tick(s, w, o).0.len
  {
  }

  /** The mob after one call in each of the given worlds. */
  function After(s: MobState, worlds: seq<(World, Others)>): (t: MobState)
    requires Valid(s)
    ensures Valid(t)
    decreases |worlds|
  {
    if |worlds| == 0 then s
    else
      TickMotion(s, worlds[0].0, worlds[0].1);
      After(Tick(s, worlds[0].0, worlds[0].1).0, worlds[1..])
  }

  /** Every walk ends: after as many calls as there are moves and waypoints pending, the queue is empty. */
  lemma {:induction false} QueueEmpties(s: MobState, worlds: seq<(World, Others)>)
    requires Valid(s) && NotFollowing(s) && |worlds| >= Pending(s)
    ensures After(s, worlds).pos == After(s, worlds).len
    decreases |worlds|
  {
    hide Tick;
    if |worlds| > 0 {
      PendingDecreases(s, worlds[0].0, worlds[0].1);
      QueueEmpties(Tick(s, worlds[0].0, worlds[0].1).0, worlds[1..]);
    }
  }

  // ---- mob_check_reachable predicts the walk ---------------------------------------------------

  /** n calls in an unchanging world. */
  function Walked(s: MobState, w: World, o: Others, n: nat): (t: MobState)
    requires Valid(s)
    ensures Valid(t)
    decreases n
  {
    if n == 0 then s
    else
      TickMotion(s, w, o);
      Walked(Tick(s, w, o).0, w, o, n - 1)
  }

  /** A peaceful mob with one waypoint, on a tile it would not stop short of. */
  predicate WalksTo(s: MobState, w: World, target: Tile) {
    && |s.queueX| == |s.queueY| == WALK_QUEUE_LEN
    && s.pos == 0 && s.len == 1 && s.Waypoint(0) == target
    && !s.inCombat && NotFollowing(s)
    && (s.gait.isNpc || s.gait.actionWalk || !(w.npcOn(target) || w.playerOn(target)))
  }

  lemma {:induction false} IdleWalk(s: MobState, w: World, o: Others, n: nat)
    requires Valid(s) && NotFollowing(s) && s.pos == s.len
    ensures Walked(s, w, o, n).at == s.at
    decreases n
  {
    if n != 0 {
      IdleWalk(Tick(s, w, o).0, w, o, n - 1);
    }
  }

  lemma WalksToTick(s: MobState, w: World, o: Others, target: Tile)
    requires WalksTo(s, w, target) && s.at != target
    ensures var step := NextStep(s.at, s.dir, target);
            var t := Tick(s, w, o).0;
            if Collides(w, s.gait, s.at, step.to, step.dir, false) then
              t.at == s.at && Valid(t) && NotFollowing(t) && t.pos == t.len
            else
              && t.at == step.to && t.dir == step.dir && t.gait == s.gait && Valid(t) && NotFollowing(t)
              && (if step.to == target then t.pos == t.len else WalksTo(t, w, target))
  {
    hide Collides, NextStep;
  }

  /**
   * In an unchanging world mob_check_reachable tells the future: it holds iff as many calls as there are king
   * moves to the target put the mob on it.
   */
  lemma {:induction false} ReachablePredictsWalk(s: MobState, w: World, o: Others, target: Tile)
    requires WalksTo(s, w, target)
    ensures Reaches(w, s.gait, s.at, s.dir, target, false)
            <==> Walked(s, w, o, Chebyshev(s.at, target)).at == target
    decreases Chebyshev(s.at, target)
  {
    hide Collides, NextStep, Tick;
    var n := Chebyshev(s.at, target);
    if n != 0 {
      var step := NextStep(s.at, s.dir, target);
      var t := Tick(s, w, o).0;
      WalksToTick(s, w, o, target);
      if Collides(w, s.gait, s.at, step.to, step.dir, false) {
        IdleWalk(t, w, o, n - 1);
      } else if step.to != target {
        ReachablePredictsWalk(t, w, o, target);
      } else {
        assert Walked(t, w, o, 0) == t;
      }
    }
  }

  /** Clearing walls, or walking to act, never makes a reachable tile unreachable. */
  lemma {:induction false} ReachableMonotone(less: World, more: World, actingLess: bool, acting: bool, isNpc: bool,
                                             cur: Tile, dir: int, target: Tile, sight: bool)
    requires Weaker(less.grid, more.grid)
    requires less.hardNpcOn == more.hardNpcOn && less.npcOn == more.npcOn && less.playerOn == more.playerOn
    requires actingLess ==> acting
    requires Reaches(more, Gait(isNpc, actingLess), cur, dir, target, sight)
    ensures Reaches(less, Gait(isNpc, acting), cur, dir, target, sight)
    decreases Chebyshev(cur, target)
  {
    hide Collides, NextStep, StaticLegal, Weaker;
    if cur != target {
      var step := NextStep(cur, dir, target);
      CollidesMeaning(less, Gait(isNpc, acting), cur, dir, target, sight);
      CollidesMeaning(more, Gait(isNpc, actingLess), cur, dir, target, sight);
      StaticLegalMonotone(less.grid, more.grid, cur, step.to, sight);
      ReachableMonotone(less, more, actingLess, acting, isNpc, step.to, step.dir, target, sight);
    }
  }

  /** The tile of the straight walk after k king moves. */
  function OnTheWay(cur: Tile, target: Tile, k: nat): Tile {
    var dx := target.x - cur.x;
    var dy := target.y - cur.y;
    Tile(if Abs(dx) <= k then target.x else if dx < 0 then cur.x - k else cur.x + k,
         if Abs(dy) <= k then target.y else if dy < 0 then cur.y - k else cur.y + k)
  }

  /** Move k of the straight walk passes the walls, and, unless it is a look, the occupants. */
  predicate FreeMove(w: World, gait: Gait, cur: Tile, target: Tile, sight: bool, k: nat) {
    && StaticLegal(w.grid, OnTheWay(cur, target, k), OnTheWay(cur, target, k + 1), sight)
    && (sight || !Occupied(w, gait, OnTheWay(cur, target, k + 1)))
  }

  /** What is reached in a straight walk, or seen: every move of it is free. */
  lemma {:induction false} ReachesIff(w: World, gait: Gait, cur: Tile, dir: int, target: Tile, sight: bool)
    ensures Reaches(w, gait, cur, dir, target, sight)
            <==> forall k :: 0 <= k < Chebyshev(cur, target) ==> FreeMove(w, gait, cur, target, sight, k)
    decreases Chebyshev(cur, target)
  {
    hide Collides, NextStep, FreeMove;
    if cur != target {
      var step := NextStep(cur, dir, target);
      var n := Chebyshev(step.to, target);
      assert Collides(w, gait, cur, step.to, step.dir, sight) <==> !FreeMove(w, gait, cur, target, sight, 0) by {
        FirstMove(w, gait, cur, dir, target, sight);
      }
      ReachesIff(w, gait, step.to, step.dir, target, sight);
      forall k | 0 <= k < n
        ensures FreeMove(w, gait, step.to, target, sight, k) == FreeMove(w, gait, cur, target, sight, k + 1)
      {
        LaterMove(w, gait, cur, dir, target, sight, k);
      }
      if forall k :: 0 <= k < n ==> FreeMove(w, gait, step.to, target, sight, k) {
        forall k | 0 < k < n + 1 ensures FreeMove(w, gait, cur, target, sight, k) {
          assert FreeMove(w, gait, step.to, target, sight, k - 1) == FreeMove(w, gait, cur, target, sight, k - 1 + 1);
        }
      }
    }
  }

  lemma FirstMove(w: World, gait: Gait, cur: Tile, dir: int, target: Tile, sight: bool)
    requires cur != target
    ensures var step := NextStep(cur, dir, target);
            Collides(w, gait, cur, step.to, step.dir, sight) <==> !FreeMove(w, gait, cur, target, sight, 0)
  {
    hide Collides, StaticLegal, Occupied, NextStep;
    CollidesMeaning(w, gait, cur, dir, target, sight);
  }

  lemma LaterMove(w: World, gait: Gait, cur: Tile, dir: int, target: Tile, sight: bool, k: nat)
    requires cur != target
    ensures FreeMove(w, gait, NextStep(cur, dir, target).to, target, sight, k)
         == FreeMove(w, gait, cur, target, sight, k + 1)
  {
    hide Collides, StaticLegal, Occupied, NextStep;
    assert OnTheWay(NextStep(cur, dir, target).to, target, k) == OnTheWay(cur, target, k + 1);
    assert OnTheWay(NextStep(cur, dir, target).to, target, k + 1) == OnTheWay(cur, target, k + 2);
  }
}
