/** The walk queue: one step per tick along the queued waypoints, or after a followed mob. */
module Walk {
  import opened Collision

  const WALK_QUEUE_LEN := 16

  datatype Option<T> = None | Some(value: T)

  /** Where the players and npcs a mob may be following are, by slot; an empty slot is absent. */
  datatype Others = Others(players: map<int, Tile>, npcs: map<int, Tile>)

  /** Whose combat state the walk reset besides the mob's own. */
  datatype Caught = NoOne | CaughtPlayer(id: int) | CaughtNpc(id: int)

  /** The fields of struct mob that walking reads or writes. */
  datatype MobState = MobState(
    at: Tile, dir: int, moved: bool, movementTimer: nat, gait: Gait,
    inCombat: bool, combatRounds: nat, targetPlayer: int, targetNpc: int,
    followingPlayer: int, followingNpc: int,
    queueX: seq<int>, queueY: seq<int>, pos: nat, len: nat)
  {
    function Waypoint(i: nat): Tile
      requires i < |queueX| && i < |queueY|
    {
      Tile(queueX[i], queueY[i])
    }
  }

  ghost predicate Valid(s: MobState) {
    |s.queueX| == |s.queueY| == WALK_QUEUE_LEN && s.pos <= s.len <= WALK_QUEUE_LEN
  }

  predicate WithinRange(a: Tile, b: Tile, range: int) {
    a.x > b.x - range && a.y > b.y - range && a.x < b.x + range && a.y < b.y + range
  }

  predicate IsCombatDir(dir: int) {
    dir == COMBAT_LEFT || dir == COMBAT_RIGHT
  }

  function Stopped(s: MobState): MobState {
    s.(pos := 0, len := 0)
  }

  /** mob_combat_reset */
  function CombatReset(s: MobState): MobState {
    s.(dir := if IsCombatDir(s.dir) then NORTH else s.dir,
       inCombat := false, combatRounds := 0, targetPlayer := -1, targetNpc := -1,
       followingPlayer := -1, followingNpc := -1)
  }

  /** mob_face */
  function Face(s: MobState, to: Tile): MobState {
    if s.moved then s else s.(dir := NextStep(s.at, s.dir, to).dir)
  }

  // ---- one tick as a function ------------------------------------------------------------

  /** Locked in a fight: the queue is dropped and nothing else happens. */
  predicate Fighting(s: MobState) {
    s.inCombat && IsCombatDir(s.dir)
  }

  /** A followed mob that is gone is forgotten; a followed player hides a followed npc. */
  function ForgetGone(s: MobState, o: Others): MobState {
    if s.followingPlayer != -1 then
      if s.followingPlayer in o.players then s else s.(followingPlayer := -1)
    else if s.followingNpc != -1 && s.followingNpc !in o.npcs then s.(followingNpc := -1)
    else s
  }

  function Followed(s: MobState, o: Others): Option<Tile> {
    if s.followingPlayer != -1 then
      if s.followingPlayer in o.players then Some(o.players[s.followingPlayer]) else None
    else if s.followingNpc != -1 && s.followingNpc in o.npcs then Some(o.npcs[s.followingNpc])
    else None
  }

  /** Next to the followed mob a follower waits. */
  predicate Waits(s: MobState, o: Others) {
    var f := Followed(s, o);
    f.Some? && WithinRange(s.at, f.value, 2)
  }

  /** Out of reach of the followed mob, its tile becomes the only waypoint. */
  function Retarget(s: MobState, o: Others): MobState
    requires |s.queueX| == |s.queueY| == WALK_QUEUE_LEN
  {
    var f := Followed(s, o);
    var kept := ForgetGone(s, o);
    if f.Some? && !WithinRange(s.at, f.value, 3) then
      kept.(queueX := s.queueX[0 := f.value.x], queueY := s.queueY[0 := f.value.y], pos := 0, len := 1)
    else kept
  }

  /** A player does not end a walk on an occupied tile, unless it walks to act there. */
  predicate StopsBefore(s: MobState, w: World, to: Tile) {
    && s.pos + 1 == s.len && !s.gait.isNpc && !s.gait.actionWalk
    && (w.npcOn(to) || w.playerOn(to))
  }

  /** The mob a caught fighter was walking towards. */
  function CaughtBy(s: MobState, o: Others): Caught {
    if !s.inCombat then NoOne
    else if s.targetPlayer != -1 then
      if s.targetPlayer in o.players then CaughtPlayer(s.targetPlayer) else NoOne
    else if s.targetNpc != -1 && s.targetNpc in o.npcs then CaughtNpc(s.targetNpc)
    else NoOne
  }

  function Advance(s: MobState, w: World, o: Others): (MobState, Caught)
    requires Valid(s)
  {
    if s.pos == s.len then (Stopped(s), NoOne)
    else
      var goal := s.Waypoint(s.pos);
      var step := NextStep(s.at, s.dir, goal);
      if Collides(w, s.gait, s.at, step.to, step.dir, false) then
        (Stopped(if s.inCombat then CombatReset(s) else s), CaughtBy(s, o))
      else if step.to == goal && StopsBefore(s, w, goal) then
        (Face(Stopped(s), goal), NoOne)
      else
        var t := if step.to == goal then s.(pos := s.pos + 1) else s;
        if step.to != s.at then
          (t.(at := step.to, dir := step.dir, moved := true, movementTimer := 0), NoOne)
        else (t, NoOne)
  }

  /** mob_process_walk_queue */
  function Tick(s: MobState, w: World, o: Others): (r: (MobState, Caught))
    requires Valid(s)
  {
    if Fighting(s) then (Stopped(s), NoOne)
    else if Waits(s, o) then (ForgetGone(s, o), NoOne)
    else Advance(Retarget(s, o), w, o)
  }

  // ---- one tick in place -----------------------------------------------------------------

  class Mob {
    var x: int
    var y: int
    var dir: int
    var moved: bool
    var movementTimer: nat
    const isNpc: bool
    var actionWalk: bool
    var inCombat: bool
    var combatRounds: nat
    var targetPlayer: int
    var targetNpc: int
    var followingPlayer: int
    var followingNpc: int
    const walkQueueX: array<int>
    const walkQueueY: array<int>
    var walkQueuePos: nat
    var walkQueueLen: nat

    ghost predicate Shaped() {
      walkQueueX != walkQueueY && walkQueueX.Length == walkQueueY.Length == WALK_QUEUE_LEN
    }

    ghost function State(): (s: MobState)
      requires Shaped()
      reads this, walkQueueX, walkQueueY
    {
      MobState(Tile(x, y), dir, moved, movementTimer, Gait(isNpc, actionWalk),
               inCombat, combatRounds, targetPlayer, targetNpc, followingPlayer, followingNpc,
               walkQueueX[..], walkQueueY[..], walkQueuePos, walkQueueLen)
    }

    method ResetCombat()
      requires Shaped()
      modifies this
      ensures State() == CombatReset(old(State()))
    {
      if dir == COMBAT_LEFT || dir == COMBAT_RIGHT {
        dir := NORTH;
      }
      inCombat, combatRounds := false, 0;
      targetPlayer, targetNpc := -1, -1;
      followingPlayer, followingNpc := -1, -1;
    }

    method FaceTile(to: Tile)
      requires Shaped()
      modifies this
      ensures State() == Face(old(State()), to)
    {
      if moved {
        return;
      }
      var step := NextStep(Tile(x, y), dir, to);
      dir := step.dir;
    }

    /** mob_process_walk_queue */
    method ProcessWalkQueue(w: World, o: Others) returns (caught: Caught)
      requires Shaped() && Valid(State())
      modifies this, walkQueueX, walkQueueY
      ensures (State(), caught) == Tick(old(State()), w, o)
    {
      hide Advance;
      caught := NoOne;
      if inCombat && (dir == COMBAT_LEFT || dir == COMBAT_RIGHT) {
        walkQueueLen := 0;
        walkQueuePos := 0;
        return;
      }
      var following: Option<Tile> := None;
      if followingPlayer != -1 {
        if followingPlayer in o.players {
          following := Some(o.players[followingPlayer]);
        } else {
          followingPlayer := -1;
        }
      } else if followingNpc != -1 {
        if followingNpc in o.npcs {
          following := Some(o.npcs[followingNpc]);
        } else {
          followingNpc := -1;
        }
      }
      if following.Some? {
        if WithinRange(Tile(x, y), following.value, 2) {
          return;
        }
        if !WithinRange(Tile(x, y), following.value, 3) {
          walkQueueX[0] := following.value.x;
          walkQueueY[0] := following.value.y;
          walkQueuePos := 0;
          walkQueueLen := 1;
        }
      }
      caught := StepAlongQueue(w, o);
    }

    /** What mob_process_walk_queue does about a collision: a fighter is caught, and the walk ends. */
    method GiveUp(o: Others) returns (caught: Caught)
      requires Shaped()
      modifies this
      ensures State() == Stopped(if old(inCombat) then CombatReset(old(State())) else old(State()))
      ensures caught == CaughtBy(old(State()), o)
    {
      caught := NoOne;
      if inCombat {
        if targetPlayer != -1 {
          if targetPlayer in o.players {
            caught := CaughtPlayer(targetPlayer);
          }
        } else if targetNpc != -1 {
          if targetNpc in o.npcs {
            caught := CaughtNpc(targetNpc);
          }
        }
        ResetCombat();
      }
      walkQueuePos := 0;
      walkQueueLen := 0;
    }

    method TakeStep(step: Step)
      requires Shaped()
      modifies this
      ensures State() == old(State()).(at := step.to, dir := step.dir, moved := true, movementTimer := 0)
    {
      x := step.to.x;
      y := step.to.y;
      dir := step.dir;
      moved := true;
      movementTimer := 0;
    }

    /** The rest of mob_process_walk_queue, once the waypoints of this tick are settled. */
    method StepAlongQueue(w: World, o: Others) returns (caught: Caught)
      requires Shaped() && Valid(State())
      modifies this
      ensures (State(), caught) == Advance(old(State()), w, o)
    {
      hide Collides, NextStep;
      caught := NoOne;
      var pos := walkQueuePos;
      var remaining := walkQueueLen - pos;
      if remaining == 0 {
        walkQueuePos := 0;
        walkQueueLen := 0;
        return;
      }
      var goal := Tile(walkQueueX[pos], walkQueueY[pos]);
      var gait := Gait(isNpc, actionWalk);
      var step := NextStep(Tile(x, y), dir, goal);
      if Collides(w, gait, Tile(x, y), step.to, step.dir, false) {
        caught := GiveUp(o);
        return;
      }
      if step.to == goal {
        if walkQueuePos + 1 == walkQueueLen && !isNpc && !actionWalk && (w.npcOn(goal) || w.playerOn(goal)) {
          walkQueuePos := 0;
          walkQueueLen := 0;
          FaceTile(goal);
          return;
        }
        walkQueuePos := walkQueuePos + 1;
      }
      if step.to != Tile(x, y) {
        TakeStep(step);
      }
    }

    /** mob_check_reachable */
    method CheckReachable(w: World, target: Tile, sight: bool) returns (reachable: bool)
      ensures reachable == Reaches(w, Gait(isNpc, actionWalk), Tile(x, y), dir, target, sight)
    {
      var cur := Tile(x, y);
      var curDir := dir;
      while cur != target
        invariant Reaches(w, Gait(isNpc, actionWalk), Tile(x, y), dir, target, sight)
               == Reaches(w, Gait(isNpc, actionWalk), cur, curDir, target, sight)
        decreases Chebyshev(cur, target)
      {
        var step := NextStep(cur, curDir, target);
        if Collides(w, Gait(isNpc, actionWalk), cur, step.to, step.dir, sight) {
          return false;
        }
        cur, curDir := step.to, step.dir;
      }
      reachable := true;
    }
  }

  /** Every step of the straight walk from cur to target is free. */
  predicate Reaches(w: World, gait: Gait, cur: Tile, curDir: int, target: Tile, sight: bool)
    decreases Chebyshev(cur, target)
  {
    cur == target
    || var step := NextStep(cur, curDir, target);
       && !Collides(w, gait, cur, step.to, step.dir, sight)
       && Reaches(w, gait, step.to, step.dir, target, sight)
  }
}
