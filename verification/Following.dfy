/** What one tick does to a mob that fights, follows or walks, case by case, and where a follower ends up. */
module Following {
  import opened Collision
  import opened Walk
  import opened WalkProofs

  // ---- fighting ------------------------------------------------------------------------------------------

  /** In a fight and facing one of the two fighting directions. */
  predicate Locked(s: MobState) {
    s.inCombat && (s.dir == 8 || s.dir == 9)
  }

  lemma LockedStays(s: MobState, w: World, o: Others)
    requires Valid(s) && Locked(s)
    ensures Tick(s, w, o) == (s.(pos := 0, len := 0), NoOne)
  {
  }

  // ---- following -----------------------------------------------------------------------------------------

  /** The tile of the mob that is followed, if it is there; a followed player goes before a followed npc. */
  ghost predicate IsFollowed(s: MobState, o: Others, f: Tile) {
    if s.followingPlayer != -1 then s.followingPlayer in o.players && o.players[s.followingPlayer] == f
    else s.followingNpc != -1 && s.followingNpc in o.npcs && o.npcs[s.followingNpc] == f
  }

  /** Whoever is followed is gone. */
  ghost predicate FollowedGone(s: MobState, o: Others) {
    if s.followingPlayer != -1 then s.followingPlayer !in o.players
    else s.followingNpc != -1 && s.followingNpc !in o.npcs
  }

  function Unfollowing(s: MobState): MobState {
    s.(followingPlayer := -1, followingNpc := -1)
  }

  /** Next to the followed mob nothing happens at all. */
  lemma FollowerWaits(s: MobState, w: World, o: Others, f: Tile)
    requires Valid(s) && !Locked(s) && IsFollowed(s, o, f)
    requires -1 <= s.at.x - f.x <= 1 && -1 <= s.at.y - f.y <= 1
    ensures Tick(s, w, o) == (s, NoOne)
  {
    hide Advance;
  }

  /**
   * Three or more tiles away the tile of the followed mob becomes the only waypoint: the follower comes one king move
   * closer to it, or collides and stands still with an empty queue.
   */
  lemma FollowerApproaches(s: MobState, w: World, o: Others, f: Tile)
    requires Valid(s) && !Locked(s) && IsFollowed(s, o, f) && Chebyshev(s.at, f) >= 3
    ensures var t := Tick(s, w, o).0;
            var step := NextStep(s.at, s.dir, f);
            if Collides(w, s.gait, s.at, step.to, step.dir, false) then t.at == s.at && t.pos == 0 && t.len == 0
            else
              && t == s.(at := step.to, dir := step.dir, moved := true, movementTimer := 0,
                         queueX := s.queueX[0 := f.x], queueY := s.queueY[0 := f.y], pos := 0, len := 1)
              && Chebyshev(t.at, f) == Chebyshev(s.at, f) - 1
  {
    hide Advance, NextStep, Collides;
    var r := s.(queueX := s.queueX[0 := f.x], queueY := s.queueY[0 := f.y], pos := 0, len := 1);
    assert Tick(s, w, o) == Advance(r, w, o);
    AdvanceFar(r, w, o, f);
  }

  lemma AdvanceFar(r: MobState, w: World, o: Others, f: Tile)
    requires Valid(r) && r.pos < r.len && r.Waypoint(r.pos) == f && Chebyshev(r.at, f) >= 2
    ensures var t := Advance(r, w, o).0;
            var step := NextStep(r.at, r.dir, f);
            if Collides(w, r.gait, r.at, step.to, step.dir, false) then t.at == r.at && t.pos == 0 && t.len == 0
            else
              && t == r.(at := step.to, dir := step.dir, moved := true, movementTimer := 0)
              && Chebyshev(t.at, f) == Chebyshev(r.at, f) - 1
  {
    hide Collides, NextStep, CaughtBy, StopsBefore;
  }

  /** Whom a mob follows makes no difference once its waypoints are settled. */
  lemma AdvanceAlike(s: MobState, w: World, o: Others)
    requires Valid(s)
    ensures var t := Advance(s, w, o);
            var u := Advance(Unfollowing(s), w, o);
            && t.1 == u.1 && Unfollowing(t.0) == Unfollowing(u.0)
            && (if t.0.followingPlayer == s.followingPlayer && t.0.followingNpc == s.followingNpc then true
                else s.inCombat && t.0.followingPlayer == -1 && t.0.followingNpc == -1)
  {
    hide Collides, NextStep, Chebyshev, Advance;
    if s.pos < s.len {
      var step := NextStep(s.at, s.dir, s.Waypoint(s.pos));
      if Collides(w, s.gait, s.at, step.to, step.dir, false) {
        BlockedAlike(s, w, o);
      } else {
        FreeAlike(s, w, o);
      }
    } else {
      EndAlike(s, w, o);
    }
  }

  lemma EndAlike(s: MobState, w: World, o: Others)
    requires Valid(s) && s.pos == s.len
    ensures Advance(s, w, o) == (Stopped(s), NoOne) && Advance(Unfollowing(s), w, o) == (Stopped(Unfollowing(s)), NoOne)
  {
  }

  lemma BlockedAlike(s: MobState, w: World, o: Others)
    requires Valid(s) && s.pos < s.len
    requires var step := NextStep(s.at, s.dir, s.Waypoint(s.pos)); Collides(w, s.gait, s.at, step.to, step.dir, false)
    ensures Advance(s, w, o) == (Stopped(if s.inCombat then CombatReset(s) else s), CaughtBy(s, o))
    ensures var u := Unfollowing(s);
            Advance(u, w, o) == (Stopped(if s.inCombat then CombatReset(s) else u), CaughtBy(s, o))
    ensures CombatReset(s).followingPlayer == CombatReset(s).followingNpc == -1
  {
    hide Collides, NextStep, Chebyshev, CaughtBy, CombatReset;
    PartsAlike(s, w, o);
  }

  lemma FreeAlike(s: MobState, w: World, o: Others)
    requires Valid(s) && s.pos < s.len
    requires var step := NextStep(s.at, s.dir, s.Waypoint(s.pos)); !Collides(w, s.gait, s.at, step.to, step.dir, false)
    ensures var t := Advance(s, w, o);
            var u := Advance(Unfollowing(s), w, o);
            && t.1 == u.1 && Unfollowing(t.0) == u.0
            && t.0.followingPlayer == s.followingPlayer && t.0.followingNpc == s.followingNpc
  {
    hide Collides, NextStep, Chebyshev, Face, StopsBefore;
    PartsAlike(s, w, o);
    FaceAlike(Stopped(s), s.Waypoint(s.pos));
  }

  lemma PartsAlike(s: MobState, w: World, o: Others)
    ensures CaughtBy(s, o) == CaughtBy(Unfollowing(s), o)
    ensures CombatReset(s) == CombatReset(Unfollowing(s))
    ensures CombatReset(s).followingPlayer == CombatReset(s).followingNpc == -1
    ensures forall to :: StopsBefore(s, w, to) == StopsBefore(Unfollowing(s), w, to)
  {
  }

  lemma FaceAlike(s: MobState, to: Tile)
    ensures Unfollowing(Face(s, to)) == Face(Unfollowing(s), to)
    ensures Face(s, to).followingPlayer == s.followingPlayer && Face(s, to).followingNpc == s.followingNpc
  {
    hide NextStep;
  }

  /** Two tiles away it walks on along the queue it has, as if it followed nobody. */
  lemma FollowerWalksOn(s: MobState, w: World, o: Others, f: Tile)
    requires Valid(s) && !Locked(s) && IsFollowed(s, o, f) && Chebyshev(s.at, f) == 2
    ensures var t := Tick(s, w, o);
            var u := Tick(Unfollowing(s), w, o);
            && t.1 == u.1 && Unfollowing(t.0) == Unfollowing(u.0)
            && (s.inCombat || (t.0.followingPlayer == s.followingPlayer && t.0.followingNpc == s.followingNpc))
  {
    hide Advance;
    AdvanceAlike(s, w, o);
  }

  /** Somebody who is gone is forgotten, and the tick is that of a mob that follows nobody. */
  lemma GoneForgotten(s: MobState, w: World, o: Others)
    requires Valid(s) && !Locked(s) && FollowedGone(s, o)
    ensures var t := Tick(s, w, o);
            var u := Tick(Unfollowing(s), w, o);
            && t.1 == u.1 && Unfollowing(t.0) == Unfollowing(u.0)
            && (s.followingPlayer != -1 ==> t.0.followingPlayer == -1)
            && (s.followingPlayer == -1 ==> t.0.followingNpc == -1)
            && (s.followingPlayer != -1 && !s.inCombat ==> t.0.followingNpc == s.followingNpc)
  {
    hide Advance;
    AdvanceAlike(ForgetGone(s, o), w, o);
  }

  // ---- walking along the queue -------------------------------------------------------------------------------

  /** At the end of the queue nothing moves. */
  lemma IdleTick(s: MobState, w: World, o: Others)
    requires Valid(s) && !Locked(s) && NotFollowing(s) && s.pos == s.len
    ensures Tick(s, w, o) == (s.(pos := 0, len := 0), NoOne)
  {
  }

  /** The next king move towards the waypoint. */
  function NextMove(s: MobState): Step
    requires Valid(s) && s.pos < s.len
  {
    NextStep(s.at, s.dir, Tile(s.queueX[s.pos], s.queueY[s.pos]))
  }

  /**
   * A collision drops the queue. A fighter loses its fight and turns away from it, and whoever it fights, a player
   * before an npc, is caught, if still there.
   */
  lemma BlockedTick(s: MobState, w: World, o: Others)
    requires Valid(s) && !Locked(s) && NotFollowing(s) && s.pos < s.len
    requires Collides(w, s.gait, s.at, NextMove(s).to, NextMove(s).dir, false)
    ensures var t := Tick(s, w, o);
            && t.0 == s.(pos := 0, len := 0, dir := t.0.dir, inCombat := false, combatRounds := t.0.combatRounds,
                         targetPlayer := t.0.targetPlayer, targetNpc := t.0.targetNpc)
            && t.0.dir == s.dir
            && (s.inCombat ==> t.0.combatRounds == 0 && t.0.targetPlayer == -1 && t.0.targetNpc == -1)
            && (!s.inCombat ==> t.0.combatRounds == s.combatRounds
                                && t.0.targetPlayer == s.targetPlayer && t.0.targetNpc == s.targetNpc)
            && (forall id :: t.1 == CaughtPlayer(id) <==>
                               s.inCombat && id == s.targetPlayer && id != -1 && id in o.players)
            && (forall id :: t.1 == CaughtNpc(id) <==>
                               s.inCombat && s.targetPlayer == -1 && id == s.targetNpc && id != -1 && id in o.npcs)
  {
    hide Collides, NextStep;
  }

  /** A reset ends the fight for good: nobody is fought or followed, and the mob does not face a fight. */
  lemma ResetMeaning(s: MobState)
    ensures var t := CombatReset(s);
            && t == s.(dir := t.dir, inCombat := false, combatRounds := 0, targetPlayer := -1, targetNpc := -1,
                       followingPlayer := -1, followingNpc := -1)
            && t.dir == (if s.dir == 8 || s.dir == 9 then 0 else s.dir)
  {
  }

  /** A player who does not walk to act stops short of a last waypoint somebody stands on, and turns to it. */
  predicate StopsShort(s: MobState, w: World)
    requires Valid(s) && s.pos < s.len
  {
    var goal := Tile(s.queueX[s.pos], s.queueY[s.pos]);
    && s.len - s.pos == 1 && Chebyshev(s.at, goal) <= 1
    && !s.gait.isNpc && !s.gait.actionWalk && (w.npcOn(goal) || w.playerOn(goal))
  }

  /** Any other step is taken; a waypoint reached is crossed off. */
  lemma FreeTick(s: MobState, w: World, o: Others)
    requires Valid(s) && !Locked(s) && NotFollowing(s) && s.pos < s.len
    requires !Collides(w, s.gait, s.at, NextMove(s).to, NextMove(s).dir, false)
    ensures var t := Tick(s, w, o).0;
            var goal := Tile(s.queueX[s.pos], s.queueY[s.pos]);
            if StopsShort(s, w) then
              t == s.(pos := 0, len := 0, dir := if s.moved then s.dir else NextMove(s).dir)
            else
              && t == s.(at := NextMove(s).to, dir := t.dir, moved := t.moved, movementTimer := t.movementTimer, pos := t.pos)
              && t.pos == (if Chebyshev(s.at, goal) <= 1 then s.pos + 1 else s.pos)
              && (if s.at == goal then t.dir == s.dir && t.moved == s.moved && t.movementTimer == s.movementTimer
                  else t.dir == NextMove(s).dir && t.moved && t.movementTimer == 0)
    ensures Tick(s, w, o).1 == NoOne
  {
    hide Collides;
  }

  // ---- a follower arrives -----------------------------------------------------------------------------------

  /** The straight walk to the side of a tile collides nowhere. */
  predicate ClearTo(w: World, gait: Gait, cur: Tile, dir: int, f: Tile)
    decreases Chebyshev(cur, f)
  {
    Chebyshev(cur, f) <= 1
    || (var step := NextStep(cur, dir, f);
        !Collides(w, gait, cur, step.to, step.dir, false) && ClearTo(w, gait, step.to, step.dir, f))
  }

  /** The follower is on its way to the tile, or about to be. */
  ghost predicate Heading(s: MobState, f: Tile)
    requires Valid(s)
  {
    Chebyshev(s.at, f) == 2 ==> s.pos < s.len && s.Waypoint(s.pos) == f
  }

  lemma LastButOne(s: MobState, w: World, o: Others, f: Tile)
    requires Valid(s) && !s.inCombat && IsFollowed(s, o, f) && Chebyshev(s.at, f) == 2 && Heading(s, f)
    requires !Collides(w, s.gait, s.at, NextStep(s.at, s.dir, f).to, NextStep(s.at, s.dir, f).dir, false)
    ensures var step := NextStep(s.at, s.dir, f);
            && Tick(s, w, o).0 == s.(at := step.to, dir := step.dir, moved := true, movementTimer := 0)
            && Chebyshev(step.to, f) == 1
  {
    hide Advance, NextStep, Collides;
    assert Tick(s, w, o) == Advance(s, w, o);
    AdvanceFar(s, w, o, f);
  }

  /**
   * Whoever follows somebody standing still, with nothing in the way, is next to it after as many ticks as there are
   * king moves less one, and stays there.
   */
  lemma {:induction false} FollowerArrives(s: MobState, w: World, o: Others, f: Tile, n: nat)
    requires Valid(s) && !s.inCombat && IsFollowed(s, o, f) && Heading(s, f)
    requires ClearTo(w, s.gait, s.at, s.dir, f) && n + 1 >= Chebyshev(s.at, f)
    ensures var t := Walked(s, w, o, n);
            && Chebyshev(t.at, f) == (if Chebyshev(s.at, f) == 0 then 0 else 1)
            && Tick(t, w, o) == (t, NoOne)
    decreases n
  {
    hide Collides, NextStep, Tick, IsFollowed;
    var d := Chebyshev(s.at, f);
    if d <= 1 {
      FollowerWaits(s, w, o, f);
      if n > 0 {
        FollowerArrives(s, w, o, f, n - 1);
      }
    } else {
      var t := Tick(s, w, o).0;
      if d == 2 {
        LastButOne(s, w, o, f);
      } else {
        FollowerApproaches(s, w, o, f);
      }
      StillFollowed(s, t, o, f);
      FollowerArrives(t, w, o, f, n - 1);
    }
  }

  lemma StillFollowed(s: MobState, t: MobState, o: Others, f: Tile)
    requires IsFollowed(s, o, f) && t.followingPlayer == s.followingPlayer && t.followingNpc == s.followingNpc
    ensures IsFollowed(t, o, f)
  {
  }

  /** Nothing in the way: an open map on which nobody stands but on the tile followed. */
  lemma {:induction false} OpenClear(w: World, gait: Gait, cur: Tile, dir: int, f: Tile)
    requires w.grid == ((p: int, x: int, y: int) => 0)
    requires forall a: Tile :: a != f ==> !w.hardNpcOn(a) && !w.npcOn(a) && !w.playerOn(a)
    requires OnMap(cur) && OnMap(f) && PlaneOf(cur.y) == PlaneOf(f.y)
    ensures ClearTo(w, gait, cur, dir, f)
    decreases Chebyshev(cur, f)
  {
    hide Collides;
    if Chebyshev(cur, f) > 1 {
      var step := NextStep(cur, dir, f);
      CollidesMeaning(w, gait, cur, dir, f, false);
      StepInside(cur, dir, f);
      OpenClear(w, gait, step.to, step.dir, f);
    }
  }

  /** A king move between two tiles of one plane stays on the map and the plane. */
  lemma StepInside(cur: Tile, dir: int, f: Tile)
    requires OnMap(cur) && OnMap(f) && PlaneOf(cur.y) == PlaneOf(f.y) && cur != f
    ensures var to := NextStep(cur, dir, f).to;
            OnMap(to) && PlaneOf(to.y) == PlaneOf(cur.y) && to.y - PlaneOf(cur.y) * PLANE_LEVEL_INC < ZONE_MAX_Y
  {
    var plane := PlaneOf(cur.y);
    var to := NextStep(cur, dir, f).to;
    assert plane * PLANE_LEVEL_INC <= to.y < plane * PLANE_LEVEL_INC + ZONE_MAX_Y;
  }
}
