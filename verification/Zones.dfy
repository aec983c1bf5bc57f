/** The zone index: which players stand in which 8 by 8 chunk of the map. */
module Zones {
  import opened Collision
  import opened Walk

  const ZONE_WIDTH := 8
  const ZONE_TOTAL_X := 57
  const ZONE_TOTAL_Y := 94
  const MAXPLAYERS := 1000

  /** UINT16_MAX marks an unoccupied slot. */
  const FREE: nat := 65535

  /** The fields of struct player that other players' clients depend on; ids are slots in server.players. */
  datatype Person = Person(
    at: Tile, dir: nat, prevDir: nat, moved: bool, teleported: bool, hidden: bool, leaving: bool, named: bool)

  /** server.players: the connected players by id. */
  type Roster = map<nat, Person>

  datatype ZoneId = ZoneId(zx: int, zy: int, plane: int)

  // ---- zone arithmetic ---------------------------------------------------------------------

  /** server_find_zone: the zone of a tile; the row y == 944 belongs to none. */
  function FindZone(a: Tile): Option<ZoneId> {
    var plane := if a.y > PLANE_LEVEL_INC then a.y / PLANE_LEVEL_INC else 0;
    var y := a.y - plane * PLANE_LEVEL_INC;
    if a.x < 0 || y < 0 || a.x >= ZONE_MAX_X || y >= ZONE_MAX_Y then None
    else if plane >= ZONE_MAX_PLANE then None
    else Some(ZoneId(a.x / ZONE_WIDTH, y / ZONE_WIDTH, plane))
  }

  /** server_get_zone: unlike server_find_zone it refuses the zones of the map's western and northern rims. */
  function GetZone(zx: int, zy: int, plane: int): Option<ZoneId> {
    if zx < 1 || zy < 1 || zx >= ZONE_TOTAL_X || zy >= ZONE_TOTAL_Y then None
    else if plane < 0 || plane >= ZONE_MAX_PLANE then None
    else Some(ZoneId(zx, zy, plane))
  }

  /** The tiles that have a zone are the map tiles except the first row of plane 1. */
  lemma FindZoneMeaning(a: Tile)
    ensures FindZone(a).Some? <==> OnMap(a) && a.y != PLANE_LEVEL_INC
    ensures FindZone(a).Some? ==>
              var z := FindZone(a).value;
              && 0 <= z.zx < ZONE_TOTAL_X && 0 <= z.zy < ZONE_TOTAL_Y && 0 <= z.plane < ZONE_MAX_PLANE
              && z.zx * ZONE_WIDTH <= a.x < z.zx * ZONE_WIDTH + ZONE_WIDTH
              && z.zy * ZONE_WIDTH <= a.y - z.plane * PLANE_LEVEL_INC < z.zy * ZONE_WIDTH + ZONE_WIDTH
  {
  }

  /** The zones found by number: 56 by 93 on each of the four planes. */
  lemma GetZoneMeaning(zx: int, zy: int, plane: int)
    ensures GetZone(zx, zy, plane) == if 1 <= zx <= 56 && 1 <= zy <= 93 && 0 <= plane <= 3 then Some(ZoneId(zx, zy, plane)) else None
  {
  }

  // ---- slot arrays -------------------------------------------------------------------------

  function IdsOf(slots: seq<nat>): set<nat> {
    set i | 0 <= i < |slots| && slots[i] != FREE :: slots[i]
  }

  /** No id is held by two slots. */
  ghost predicate Unique(slots: seq<nat>) {
    forall i, j :: 0 <= i < j < |slots| && slots[i] == slots[j] ==> slots[i] == FREE
  }

  /** The first slot that holds id, or the number of slots. */
  function IndexOf(slots: seq<nat>, id: nat): (i: nat)
    ensures i <= |slots|
    ensures i < |slots| ==> slots[i] == id
    ensures forall j :: 0 <= j < i ==> slots[j] != id
  {
    if |slots| == 0 || slots[0] == id then 0 else 1 + IndexOf(slots[1..], id)
  }

  function NewCapacity(len: nat): nat {
    if len == 0 then 8 else 2 * len % 65536
  }

  function Frees(n: nat): (s: seq<nat>) {
    seq(n, _ => FREE)
  }

  /** The slots after zone_add_player: the first free slot is taken, or the array is doubled. */
  function SlotsAdd(slots: seq<nat>, id: nat): seq<nat> {
    var i := IndexOf(slots, FREE);
    if i < |slots| then slots[i := id]
    else if NewCapacity(|slots|) > |slots| then slots + [id] + Frees(NewCapacity(|slots|) - |slots| - 1)
    else slots[..NewCapacity(|slots|)]
  }

  /** The slots after zone_remove_player: the first slot that holds id is freed. */
  function SlotsRemove(slots: seq<nat>, id: nat): seq<nat> {
    var i := IndexOf(slots, id);
    if i < |slots| then slots[i := FREE] else slots
  }

  /** The capacity is within the range in which doubling does not wrap around. */
  ghost predicate Bounded(slots: seq<nat>) {
    |slots| <= 2 * MAXPLAYERS && forall id :: id in IdsOf(slots) ==> id < MAXPLAYERS
  }

  /** A full array of distinct ids below n has at most n slots. */
  lemma {:induction false} FullIsSmall(slots: seq<nat>, n: nat)
    requires forall i :: 0 <= i < |slots| ==> slots[i] < n
    requires forall i, j :: 0 <= i < j < |slots| ==> slots[i] != slots[j]
    ensures |slots| <= n
  {
    var ids := set i | 0 <= i < |slots| :: slots[i];
    DistinctCount(slots, ids);
    SubsetCount(ids, Below(n));
  }

  lemma {:induction false} DistinctCount(slots: seq<nat>, ids: set<nat>)
    requires ids == set i | 0 <= i < |slots| :: slots[i]
    requires forall i, j :: 0 <= i < j < |slots| ==> slots[i] != slots[j]
    ensures |ids| == |slots|
    decreases |slots|
  {
    if |slots| > 0 {
      var rest := slots[1..];
      var restIds := set i | 0 <= i < |rest| :: rest[i];
      DistinctCount(rest, restIds);
      assert ids == restIds + {slots[0]};
    }
  }

  function Below(n: nat): (r: set<nat>)
    ensures |r| == n
    ensures forall i: nat :: i in r <==> i < n
  {
    if n == 0 then {} else Below(n - 1) + {n - 1}
  }

  lemma {:induction false} SubsetCount(a: set<nat>, b: set<nat>)
    requires a <= b
    ensures |a| <= |b|
    decreases |a|
  {
    if a != {} {
      var x :| x in a;
      SubsetCount(a - {x}, b - {x});
    }
  }

  /** zone_add_player adds the id to the set the slots stand for, and keeps ids unique. */
  lemma SlotsAddIds(slots: seq<nat>, id: nat)
    requires Unique(slots) && Bounded(slots) && id < MAXPLAYERS && id !in IdsOf(slots)
    ensures var r := SlotsAdd(slots, id);
            IdsOf(r) == IdsOf(slots) + {id} && Unique(r) && Bounded(r)
  {
    hide IndexOf;
    var i := IndexOf(slots, FREE);
    var r := SlotsAdd(slots, id);
    forall k | 0 <= k < |slots| ensures slots[k] != FREE ==> slots[k] in IdsOf(slots) { }
    if i < |slots| {
      assert r[i] == id;
      forall k | 0 <= k < |slots| && k != i ensures r[k] == slots[k] { }
    } else {
      FullIsSmall(slots, MAXPLAYERS);
      assert r[|slots|] == id;
      forall k | 0 <= k < |r| ensures r[k] == if k < |slots| then slots[k] else if k == |slots| then id else FREE { }
    }
    SameIds(r, IdsOf(slots) + {id});
  }

  /** Where the id goes: into the first free slot, or behind a full array, which doubles; 65535 marks a free slot. */
  lemma SlotsAddPlace(slots: seq<nat>, id: nat, i: nat)
    requires i <= |slots| <= 2000 && (i < |slots| ==> slots[i] == 65535) && forall j :: 0 <= j < i ==> slots[j] != 65535
    ensures var r := SlotsAdd(slots, id);
            && |r| == (if i < |slots| then |slots| else if i == 0 then 8 else 2 * |slots|)
            && i < |r| && r[i] == id
            && (forall j :: 0 <= j < |slots| && j != i ==> r[j] == slots[j])
            && (forall j :: |slots| <= j < |r| && j != i ==> r[j] == 65535)
  {
    assert IndexOf(slots, FREE) == i;
  }

  lemma SlotsRemovePlace(slots: seq<nat>, id: nat, i: nat)
    requires i < |slots| && slots[i] == id && forall j :: 0 <= j < i ==> slots[j] != id
    ensures SlotsRemove(slots, id) == slots[i := 65535]
  {
    assert IndexOf(slots, id) == i;
  }

  lemma SameIds(slots: seq<nat>, ids: set<nat>)
    requires forall id :: id in ids ==> exists i :: 0 <= i < |slots| && slots[i] == id && id != FREE
    requires forall i :: 0 <= i < |slots| && slots[i] != FREE ==> slots[i] in ids
    ensures IdsOf(slots) == ids
  {
  }

  /** zone_remove_player removes the id from the set. */
  lemma SlotsRemoveIds(slots: seq<nat>, id: nat)
    requires Unique(slots) && Bounded(slots) && id != FREE
    ensures var r := SlotsRemove(slots, id);
            IdsOf(r) == IdsOf(slots) - {id} && Unique(r) && Bounded(r)
  {
    var i := IndexOf(slots, id);
    var r := SlotsRemove(slots, id);
    forall k | 0 <= k < |slots| ensures slots[k] != FREE ==> slots[k] in IdsOf(slots) { }
    if i < |slots| {
      forall x | x in IdsOf(slots) - {id}
        ensures exists k :: 0 <= k < |r| && r[k] == x && x != FREE
      {
        var k :| 0 <= k < |slots| && slots[k] == x;
        assert r[k] == x;
      }
    }
    SameIds(r, IdsOf(slots) - {id});
  }

  // ---- the index as a whole ----------------------------------------------------------------

  type Table = map<ZoneId, seq<nat>>

  /** The slot array of a zone; a zone that was never used has none. */
  function Slots(zones: Table, z: ZoneId): seq<nat> {
    if z in zones then zones[z] else []
  }

  /** Every connected player holds exactly one slot, in the zone of its tile, and none when off the map. */
  ghost predicate IndexOk(zones: Table, roster: Roster) {
    && (forall z :: Unique(Slots(zones, z)) && Bounded(Slots(zones, z)))
    && (forall id :: id in roster ==> id < MAXPLAYERS)
    && (forall id, z :: id in roster ==> (id in IdsOf(Slots(zones, z)) <==> FindZone(roster[id].at) == Some(z)))
  }

  function Leave(zones: Table, id: nat, z: Option<ZoneId>): Table {
    if z.Some? then zones[z.value := SlotsRemove(Slots(zones, z.value), id)] else zones
  }

  function Enter(zones: Table, id: nat, z: Option<ZoneId>): Table {
    if z.Some? then zones[z.value := SlotsAdd(Slots(zones, z.value), id)] else zones
  }

  /** player_moved, as far as the index is concerned. */
  function Relocate(zones: Table, id: nat, from: Tile, to: Tile): Table {
    var zoneOld := FindZone(from);
    var zoneNew := FindZone(to);
    if zoneOld == zoneNew then zones else Enter(Leave(zones, id, zoneOld), id, zoneNew)
  }

  lemma LeaveIds(zones: Table, id: nat, z: Option<ZoneId>, y: ZoneId)
    requires Unique(Slots(zones, y)) && Bounded(Slots(zones, y)) && id < MAXPLAYERS
    ensures var r := Slots(Leave(zones, id, z), y);
            && IdsOf(r) == IdsOf(Slots(zones, y)) - (if z == Some(y) then {id} else {})
            && Unique(r) && Bounded(r)
  {
    SlotsRemoveIds(Slots(zones, y), id);
  }

  lemma EnterIds(zones: Table, id: nat, z: Option<ZoneId>, y: ZoneId)
    requires Unique(Slots(zones, y)) && Bounded(Slots(zones, y)) && id < MAXPLAYERS
    requires z == Some(y) ==> id !in IdsOf(Slots(zones, y))
    ensures var r := Slots(Enter(zones, id, z), y);
            && IdsOf(r) == IdsOf(Slots(zones, y)) + (if z == Some(y) then {id} else {})
            && Unique(r) && Bounded(r)
  {
    if z == Some(y) {
      SlotsAddIds(Slots(zones, y), id);
    }
  }

  lemma RelocateIds(zones: Table, id: nat, from: Tile, to: Tile, z: ZoneId)
    requires Unique(Slots(zones, z)) && Bounded(Slots(zones, z)) && id < MAXPLAYERS
    requires FindZone(to) == Some(z) && FindZone(from) != Some(z) ==> id !in IdsOf(Slots(zones, z))
    ensures var r := Slots(Relocate(zones, id, from, to), z);
            && Unique(r) && Bounded(r)
            && IdsOf(r) == if FindZone(from) == FindZone(to) then IdsOf(Slots(zones, z))
                           else IdsOf(Slots(zones, z)) - (if FindZone(from) == Some(z) then {id} else {})
                                                       + (if FindZone(to) == Some(z) then {id} else {})
  {
    hide SlotsAdd, SlotsRemove, IdsOf, FindZone, Unique, Bounded;
    if FindZone(from) != FindZone(to) {
      LeaveIds(zones, id, FindZone(from), z);
      EnterIds(Leave(zones, id, FindZone(from)), id, FindZone(to), z);
    }
  }

  /** A step or a teleport keeps the index exact. */
  lemma RelocateOk(zones: Table, roster: Roster, id: nat, p: Person)
    requires IndexOk(zones, roster) && id in roster
    ensures IndexOk(Relocate(zones, id, roster[id].at, p.at), roster[id := p])
  {
    hide SlotsAdd, SlotsRemove, IdsOf, FindZone, Relocate, Unique, Bounded;
    forall z
      ensures var r := Slots(Relocate(zones, id, roster[id].at, p.at), z);
              && Unique(r) && Bounded(r)
              && IdsOf(r) == if FindZone(roster[id].at) == FindZone(p.at) then IdsOf(Slots(zones, z))
                             else IdsOf(Slots(zones, z)) - (if FindZone(roster[id].at) == Some(z) then {id} else {})
                                                         + (if FindZone(p.at) == Some(z) then {id} else {})
    {
      RelocateIds(zones, id, roster[id].at, p.at, z);
    }
  }

  /** Where player_load says a player comes from: a tile without a zone. */
  const NOWHERE := Tile(65535, 65535)

  /** No slot holds the id, not even a stale one of a player that left. */
  ghost predicate Fresh(zones: Table, id: nat) {
    forall z :: id !in IdsOf(Slots(zones, z))
  }

  /**
   * A player logs in: it is entered where the database has it, and on its first login then put on the start tile,
   * without a word to the index.
   */
  function LoggedIn(zones: Table, id: nat, stored: Tile): Table {
    Relocate(zones, id, NOWHERE, stored)
  }

  function Settled(p: Person, start: Option<Tile>): Person {
    if start.Some? then p.(at := start.value) else p
  }

  /** The id is held by the slots of this zone, and of no other. */
  ghost predicate HeldIn(zones: Table, id: nat, zone: Option<ZoneId>) {
    forall z :: id in IdsOf(Slots(zones, z)) <==> zone == Some(z)
  }

  lemma LoginIds(zones: Table, roster: Roster, id: nat, stored: Tile)
    requires IndexOk(zones, roster) && id < MAXPLAYERS
    requires FindZone(stored).Some? ==> id !in IdsOf(Slots(zones, FindZone(stored).value))
    ensures forall z ::
              var r := Slots(LoggedIn(zones, id, stored), z);
              && Unique(r) && Bounded(r)
              && IdsOf(r) == IdsOf(Slots(zones, z)) + (if FindZone(stored) == Some(z) then {id} else {})
  {
    assert FindZone(NOWHERE) == None;
    hide SlotsAdd, SlotsRemove, IdsOf, FindZone, Relocate, Unique, Bounded;
    forall z
      ensures var r := Slots(LoggedIn(zones, id, stored), z);
              && Unique(r) && Bounded(r)
              && IdsOf(r) == IdsOf(Slots(zones, z)) + (if FindZone(stored) == Some(z) then {id} else {})
    {
      RelocateIds(zones, id, NOWHERE, stored, z);
    }
  }

  /** The id is entered a second time. */
  lemma StaleLogin(zones: Table, roster: Roster, id: nat, stored: Tile)
    requires IndexOk(zones, roster) && id < MAXPLAYERS && FindZone(stored).Some?
    requires id in IdsOf(Slots(zones, FindZone(stored).value))
    ensures !Unique(Slots(LoggedIn(zones, id, stored), FindZone(stored).value))
  {
    assert FindZone(NOWHERE) == None;
    hide SlotsAdd, IdsOf, FindZone, Unique, Bounded;
    TwiceAdded(Slots(zones, FindZone(stored).value), id);
  }

  lemma TwiceAdded(slots: seq<nat>, id: nat)
    requires id in IdsOf(slots) && Unique(slots) && Bounded(slots)
    ensures !Unique(SlotsAdd(slots, id))
  {
    var k :| 0 <= k < |slots| && slots[k] == id;
    var i := IndexOf(slots, FREE);
    var r := SlotsAdd(slots, id);
    if i == |slots| {
      forall j | 0 <= j < |slots| ensures slots[j] in IdsOf(slots) { }
      FullIsSmall(slots, MAXPLAYERS);
    }
    assert r[k] == id && r[i] == id && k != i;
  }

  /**
   * A login keeps the index exact if and only if no slot of an earlier player with the same id is left, since logging
   * out frees none, and the player stays in the zone it was entered in, since a first login moves it without a word.
   * Where the database has the player off the map nothing is entered: a stale slot had then better be in the right
   * zone.
   */
  lemma LoginOkIff(zones: Table, roster: Roster, id: nat, stored: Tile, p: Person)
    requires IndexOk(zones, roster) && id < MAXPLAYERS && id !in roster
    ensures IndexOk(LoggedIn(zones, id, stored), roster[id := p])
            <==> if FindZone(stored).Some? then Fresh(zones, id) && FindZone(p.at) == FindZone(stored)
                 else HeldIn(zones, id, FindZone(p.at))
  {
    hide FindZone, IdsOf, Unique, Bounded, LoggedIn;
    var there := FindZone(stored);
    var after := LoggedIn(zones, id, stored);
    if there.Some? && id in IdsOf(Slots(zones, there.value)) {
      StaleLogin(zones, roster, id, stored);
    } else {
      LoginIds(zones, roster, id, stored);
      if IndexOk(after, roster[id := p]) {
        forall z ensures id in IdsOf(Slots(after, z)) <==> FindZone(p.at) == Some(z) {
          assert id in roster[id := p] && roster[id := p][id] == p;
        }
        if there.Some? {
          assert id in IdsOf(Slots(after, there.value));
        }
      }
    }
  }

  /** A slot is left behind, and the next player with the id is in two places. */
  lemma StaleInstance(p: Person, q: Person)
    requires p.at == Tile(100, 100) && q.at == Tile(200, 200)
    ensures var online := Happen(map[], map[], Login(0, p, None));
            var offline := Happen(online.0, online.1, Logout(0));
            && Enabled(map[], map[], Login(0, p, None)) && IndexOk(offline.0, offline.1)
            && !Fresh(offline.0, 0) && 0 !in offline.1
            && !IndexOk(LoggedIn(offline.0, 0, q.at), offline.1[0 := q])
  {
    hide IdsOf, Relocate, Unique, Bounded;
    EmptyIndexOk();
    assert Fresh(map[], 0) by { NobodyIn(); }
    var online := Happen(map[], map[], Login(0, p, None));
    HappenOk(map[], map[], Login(0, p, None));
    HappenOk(online.0, online.1, Logout(0));
    assert FindZone(p.at).Some? && FindZone(q.at).Some?;
    assert 0 in IdsOf(Slots(online.0, FindZone(p.at).value));
    LoginOkIff(online.0, map[], 0, q.at, q);
    assert online.1 - {0} == map[];
  }

  /** A first player whose database row says (120, 648), and whose start tile is far from there. */
  lemma StartTileInstance(p: Person)
    requires p.at == Tile(120, 648)
    ensures Fresh(map[], 0) && IndexOk(map[], map[])
    ensures !IndexOk(LoggedIn(map[], 0, p.at), map[0 := Settled(p, Some(Tile(216, 744)))])
  {
    hide IdsOf, Relocate, Unique, Bounded;
    EmptyIndexOk();
    NobodyIn();
    LoginOkIff(map[], map[], 0, p.at, Settled(p, Some(Tile(216, 744))));
    assert map[][0 := Settled(p, Some(Tile(216, 744)))] == map[0 := Settled(p, Some(Tile(216, 744)))];
  }

  lemma NobodyIn()
    ensures Fresh(map[], 0)
  {
    assert forall z: ZoneId :: Slots(map[], z) == [];
  }

  /** Slots of players that left may be freed at any time, and need not be. */
  ghost predicate Cleans(before: seq<nat>, after: seq<nat>, roster: Roster) {
    |before| == |after|
    && forall i :: 0 <= i < |before| ==> after[i] == before[i] || (after[i] == FREE && before[i] !in roster)
  }

  lemma CleansIds(before: seq<nat>, after: seq<nat>, roster: Roster)
    requires Cleans(before, after, roster) && Unique(before) && Bounded(before)
    ensures Unique(after) && Bounded(after)
    ensures forall id :: id in roster ==> (id in IdsOf(after) <==> id in IdsOf(before))
  {
    forall i | 0 <= i < |before| ensures before[i] != FREE ==> before[i] in IdsOf(before) { }
    forall i | 0 <= i < |after| ensures after[i] != FREE ==> after[i] in IdsOf(after) { }
    assert IdsOf(after) <= IdsOf(before);
    forall id | id in roster && id in IdsOf(before)
      ensures id in IdsOf(after)
    {
      var i :| 0 <= i < |before| && before[i] == id;
      assert after[i] == id;
    }
  }

  lemma CleanOk(zones: Table, roster: Roster, z: ZoneId, after: seq<nat>)
    requires IndexOk(zones, roster) && Cleans(Slots(zones, z), after, roster)
    ensures IndexOk(zones[z := after], roster)
  {
    hide IdsOf, FindZone, Cleans, Unique, Bounded;
    CleansIds(Slots(zones, z), after, roster);
    var now := zones[z := after];
    forall y ensures Unique(Slots(now, y)) && Bounded(Slots(now, y)) {
      assert Slots(now, y) == if y == z then after else Slots(zones, y);
    }
    forall id, y | id in roster ensures id in IdsOf(Slots(now, y)) <==> FindZone(roster[id].at) == Some(y) {
      assert Slots(now, y) == if y == z then after else Slots(zones, y);
      assert id in IdsOf(Slots(zones, y)) <==> FindZone(roster[id].at) == Some(y);
    }
  }

  /** What happens to the index: logins, logouts, moves, and lookups that free stale slots of a zone. */
  datatype Event =
    | Login(id: nat, p: Person, start: Option<Tile>)
    | Logout(id: nat)
    | Move(id: nat, p: Person)
    | Lookup(z: ZoneId, after: seq<nat>)

  ghost predicate Enabled(zones: Table, roster: Roster, e: Event) {
    match e
    case Login(id, p, start) =>
      id < MAXPLAYERS && id !in roster && Fresh(zones, id) && FindZone(Settled(p, start).at) == FindZone(p.at)
    case Logout(id) => true
    case Move(id, p) => id in roster
    case Lookup(z, after) => Cleans(Slots(zones, z), after, roster)
  }

  function Happen(zones: Table, roster: Roster, e: Event): (Table, Roster) {
    match e
    case Login(id, p, start) => (LoggedIn(zones, id, p.at), roster[id := Settled(p, start)])
    case Logout(id) => (zones, roster - {id})
    case Move(id, p) => (if id in roster then Relocate(zones, id, roster[id].at, p.at) else zones, roster[id := p])
    case Lookup(z, after) => (zones[z := after], roster)
  }

  ghost predicate EnabledAll(zones: Table, roster: Roster, events: seq<Event>)
    decreases |events|
  {
    |events| == 0
    || (Enabled(zones, roster, events[0])
        && EnabledAll(Happen(zones, roster, events[0]).0, Happen(zones, roster, events[0]).1, events[1..]))
  }

  function HappenAll(zones: Table, roster: Roster, events: seq<Event>): (Table, Roster)
    decreases |events|
  {
    if |events| == 0 then (zones, roster)
    else HappenAll(Happen(zones, roster, events[0]).0, Happen(zones, roster, events[0]).1, events[1..])
  }

  lemma HappenOk(zones: Table, roster: Roster, e: Event)
    requires IndexOk(zones, roster) && Enabled(zones, roster, e)
    ensures IndexOk(Happen(zones, roster, e).0, Happen(zones, roster, e).1)
  {
    hide FindZone, IdsOf, Relocate, Unique, Bounded, Cleans;
    match e
    case Login(id, p, start) => LoginOkIff(zones, roster, id, p.at, Settled(p, start));
    case Logout(id) =>
    case Move(id, p) => RelocateOk(zones, roster, id, p);
    case Lookup(z, after) => CleanOk(zones, roster, z, after);
  }

  /** The index stays exact over every run. */
  lemma {:induction false} RunIndexOk(zones: Table, roster: Roster, events: seq<Event>)
    requires IndexOk(zones, roster) && EnabledAll(zones, roster, events)
    ensures IndexOk(HappenAll(zones, roster, events).0, HappenAll(zones, roster, events).1)
    decreases |events|
  {
    hide IndexOk, Happen, Enabled;
    if |events| > 0 {
      HappenOk(zones, roster, events[0]);
      RunIndexOk(Happen(zones, roster, events[0]).0, Happen(zones, roster, events[0]).1, events[1..]);
    }
  }

  /** The server starts with an empty index. */
  lemma EmptyIndexOk()
    ensures IndexOk(map[], map[])
  {
    assert forall z: ZoneId :: Slots(map[], z) == [];
  }
}
