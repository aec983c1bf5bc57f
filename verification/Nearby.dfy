/** The zone table in memory, and the query for the players near a mob. */
module Nearby {
  import opened Collision
  import opened Walk
  import opened Zones

  /** zone_find_players copies at most this many players of one zone. */
  const ZONE_FETCH := 128

  // ---- the query as a function ---------------------------------------------------------------

  /** A slot names a connected player that has logged in. */
  predicate Present(roster: Roster, id: nat) {
    id != FREE && id in roster && roster[id].named
  }

  function Eligible(slots: seq<nat>, roster: Roster): (ids: seq<nat>)
    ensures forall id :: id in ids <==> id in IdsOf(slots) && Present(roster, id)
  {
    if |slots| == 0 then []
    else
      var last := slots[|slots| - 1];
      var before := slots[..|slots| - 1];
      IdsOfSnoc(before, last);
      assert slots == before + [last];
      Eligible(before, roster) + (if Present(roster, last) then [last] else [])
  }

  lemma IdsOfSnoc(before: seq<nat>, last: nat)
    ensures IdsOf(before + [last]) == IdsOf(before) + (if last == FREE then {} else {last})
  {
    var s := before + [last];
    assert forall i :: 0 <= i < |before| ==> s[i] == before[i];
    assert s[|before|] == last;
    SameIds(s, IdsOf(before) + (if last == FREE then {} else {last}));
  }

  lemma EligibleNone(roster: Roster)
    ensures Eligible([], roster) == []
  {
  }

  lemma EligibleNext(slots: seq<nat>, i: nat, roster: Roster)
    requires i < |slots|
    ensures Eligible(slots[..i + 1], roster)
         == Eligible(slots[..i], roster) + (if Present(roster, slots[i]) then [slots[i]] else [])
  {
    assert slots[..i + 1][..i] == slots[..i];
  }

  /** The players of a zone come in the order of their slots. */
  lemma {:induction false} EligibleOrder(slots: seq<nat>, roster: Roster) returns (place: seq<nat>)
    ensures |place| == |Eligible(slots, roster)|
    ensures forall i :: 0 <= i < |place| ==> place[i] < |slots| && Eligible(slots, roster)[i] == slots[place[i]]
    ensures forall i, j :: 0 <= i < j < |place| ==> place[i] < place[j]
    decreases |slots|
  {
    place := [];
    if |slots| > 0 {
      place := EligibleOrder(slots[..|slots| - 1], roster);
      if Present(roster, slots[|slots| - 1]) {
        place := place + [|slots| - 1];
      }
    }
  }

  /** The first n, or all if there are fewer. */
  function First<T>(s: seq<T>, n: nat): (r: seq<T>)
    ensures r <= s && |r| == if |s| < n then |s| else n
  {
    if |s| <= n then s else s[..n]
  }

  function Filtered(ids: seq<nat>, roster: Roster, at: Tile): (r: seq<nat>)
    requires forall id :: id in ids ==> id in roster
    ensures forall id :: id in r <==> id in ids && WithinRange(at, roster[id].at, 16)
  {
    if |ids| == 0 then []
    else
      var last := ids[|ids| - 1];
      Filtered(ids[..|ids| - 1], roster, at) + (if WithinRange(at, roster[last].at, 16) then [last] else [])
  }

  lemma FilteredNext(ids: seq<nat>, i: nat, roster: Roster, at: Tile)
    requires i < |ids| && forall id :: id in ids ==> id in roster
    ensures Filtered(ids[..i + 1], roster, at)
         == Filtered(ids[..i], roster, at) + (if WithinRange(at, roster[ids[i]].at, 16) then [ids[i]] else [])
  {
    assert ids[..i + 1][..i] == ids[..i];
  }

  function Fetch(zones: Table, roster: Roster, z: ZoneId): (ids: seq<nat>)
    ensures forall id :: id in ids ==> id in roster
  {
    var all := Eligible(Slots(zones, z), roster);
    assert forall id :: id in First(all, ZONE_FETCH) ==> id in all;
    First(all, ZONE_FETCH)
  }

  /** The k-th of the 5 by 5 zones around a zone, in the order they are visited; the middle one is skipped. */
  function ZoneAround(orig: ZoneId, k: nat): Option<ZoneId> {
    if k == 12 then None else GetZone(orig.zx + k / 5 - 2, orig.zy + k % 5 - 2, orig.plane)
  }

  function FromZone(zones: Table, roster: Roster, at: Tile, orig: ZoneId, k: nat): seq<nat> {
    var z := ZoneAround(orig, k);
    if z.None? then [] else Filtered(Fetch(zones, roster, z.value), roster, at)
  }

  /** The players of the mob's own zone, and those in range of the first k zones around it. */
  function Gathered(zones: Table, roster: Roster, at: Tile, orig: ZoneId, k: nat): seq<nat> {
    if k == 0 then Fetch(zones, roster, orig)
    else Gathered(zones, roster, at, orig, k - 1) + FromZone(zones, roster, at, orig, k - 1)
  }

  /** mob_get_nearby_players */
  function NearbyPlayers(zones: Table, roster: Roster, at: Tile, max: nat): seq<nat> {
    var orig := FindZone(at);
    if orig.None? then [] else First(Gathered(zones, roster, at, orig.value, 25), max)
  }

  lemma FirstAppend<T>(a: seq<T>, b: seq<T>, n: nat)
    ensures First(First(a, n) + b, n) == First(a + b, n)
  {
  }

  /** Freeing stale slots does not change what is found. */
  lemma {:induction false} EligibleCleans(before: seq<nat>, after: seq<nat>, roster: Roster)
    requires Cleans(before, after, roster)
    ensures Eligible(after, roster) == Eligible(before, roster)
    decreases |before|
  {
    if |before| > 0 {
      EligibleCleans(before[..|before| - 1], after[..|after| - 1], roster);
    }
  }

  lemma {:induction false} EligiblePrefix(slots: seq<nat>, i: nat, roster: Roster)
    requires i <= |slots|
    ensures Eligible(slots[..i], roster) <= Eligible(slots, roster)
    decreases |slots|
  {
    if i < |slots| {
      var before := slots[..|slots| - 1];
      assert before[..i] == slots[..i];
      EligiblePrefix(before, i, roster);
    } else {
      assert slots[..i] == slots;
    }
  }

  lemma CleansTransitive(a: seq<nat>, b: seq<nat>, c: seq<nat>, roster: Roster)
    requires Cleans(a, b, roster) && Cleans(b, c, roster)
    ensures Cleans(a, c, roster)
  {
  }

  // ---- the query in place --------------------------------------------------------------------

  /** The copying loop of mob_get_nearby_players for a neighbouring zone. */
  method AppendInRange(list: seq<nat>, tmp: seq<nat>, roster: Roster, at: Tile, max: nat) returns (r: seq<nat>)
    requires |list| <= max && forall id :: id in tmp ==> id in roster
    ensures r == First(list + Filtered(tmp, roster, at), max)
  {
    hide Filtered, WithinRange;
    r := list;
    var i := 0;
    assert tmp[..0] == [] && Filtered([], roster, at) == [] by { FilteredNone(roster, at); }
    while i < |tmp| && |r| < max
      invariant i <= |tmp| && |r| <= max
      invariant r == First(list + Filtered(tmp[..i], roster, at), max)
      invariant |r| < max ==> r == list + Filtered(tmp[..i], roster, at)
    {
      FilteredNext(tmp, i, roster, at);
      if WithinRange(at, roster[tmp[i]].at, 16) {
        r := r + [tmp[i]];
      }
      i := i + 1;
    }
    FilteredPrefix(tmp, i, roster, at);
    if i == |tmp| {
      assert tmp[..i] == tmp;
    }
  }

  lemma FilteredNone(roster: Roster, at: Tile)
    ensures Filtered([], roster, at) == []
  {
  }

  lemma {:induction false} FilteredPrefix(ids: seq<nat>, i: nat, roster: Roster, at: Tile)
    requires i <= |ids| && forall id :: id in ids ==> id in roster
    ensures Filtered(ids[..i], roster, at) <= Filtered(ids, roster, at)
    decreases |ids|
  {
    if i < |ids| {
      var before := ids[..|ids| - 1];
      assert before[..i] == ids[..i];
      FilteredPrefix(before, i, roster, at);
    } else {
      assert ids[..i] == ids;
    }
  }

  class ZoneTable {
    var zones: Table

    /** zone_add_player */
    method AddPlayer(z: ZoneId, id: nat)
      modifies this
      ensures zones == old(zones)[z := SlotsAdd(Slots(old(zones), z), id)]
    {
      var slots: seq<nat> := Slots(zones, z);
      for i := 0 to |slots|
        invariant forall j :: 0 <= j < i ==> slots[j] != FREE
      {
        if slots[i] == FREE {
          zones := zones[z := slots[i := id]];
          return;
        }
      }
      var newMax := NewCapacity(|slots|);
      var grown := First(slots, newMax);
      var foundSlot := false;
      var i := |slots|;
      while i < newMax
        invariant |slots| <= i && (i <= newMax || i == |slots|)
        invariant foundSlot == (i > |slots|)
        invariant grown == if i == |slots| then First(slots, newMax) else slots + [id] + Frees(i - |slots| - 1)
      {
        grown := grown + [if foundSlot then FREE else id];
        foundSlot := true;
        i := i + 1;
      }
      zones := zones[z := grown];
    }

    /** zone_remove_player */
    method RemovePlayer(z: ZoneId, id: nat)
      modifies this
      ensures zones == if z in old(zones) then old(zones)[z := SlotsRemove(Slots(old(zones), z), id)] else old(zones)
    {
      var slots: seq<nat> := Slots(zones, z);
      for i := 0 to |slots|
        invariant zones == old(zones)
        invariant forall j :: 0 <= j < i ==> slots[j] != id
      {
        if slots[i] == id {
          zones := zones[z := slots[i := FREE]];
          return;
        }
      }
    }

    /** player_moved, as far as the index is concerned. */
    method PlayerMoved(id: nat, from: Tile, to: Tile)
      modifies this
      ensures forall z :: Slots(zones, z) == Slots(Relocate(old(zones), id, from, to), z)
    {
      var zoneOld := FindZone(from);
      var zoneNew := FindZone(to);
      if zoneOld.Some? && zoneOld != zoneNew {
        RemovePlayer(zoneOld.value, id);
      }
      if zoneNew.Some? && zoneOld != zoneNew {
        AddPlayer(zoneNew.value, id);
      }
    }

    /** zone_find_players: stale slots met on the way are freed. */
    method FindPlayers(z: ZoneId, roster: Roster, max: nat) returns (list: seq<nat>)
      modifies this
      ensures list == First(Eligible(Slots(old(zones), z), roster), max)
      ensures zones == old(zones)[z := Slots(zones, z)] || zones == old(zones)
      ensures Cleans(Slots(old(zones), z), Slots(zones, z), roster)
      ensures |list| < max ==> forall i :: 0 <= i < |Slots(zones, z)| ==>
                                 Slots(zones, z)[i] == FREE || Slots(zones, z)[i] in roster
    {
      hide Eligible;
      list := [];
      var slots: seq<nat> := Slots(zones, z);
      ghost var before := slots;
      EligibleNone(roster);
      var i := 0;
      while i < |slots|
        invariant 0 <= i <= |slots| == |before|
        invariant forall j :: i <= j < |slots| ==> slots[j] == before[j]
        invariant list == Eligible(before[..i], roster) && |list| <= max
        invariant Cleans(before, slots, roster)
        invariant forall j :: 0 <= j < i ==> slots[j] == FREE || slots[j] in roster
        invariant zones == old(zones)
      {
        EligibleNext(before, i, roster);
        if slots[i] != FREE {
          if slots[i] !in roster {
            slots := slots[i := FREE];
          } else if roster[slots[i]].named {
            if |list| < max {
              list := list + [slots[i]];
            } else {
              EligiblePrefix(before, i + 1, roster);
              break;
            }
          }
        }
        i := i + 1;
      }
      if i == |slots| {
        assert before[..i] == before;
      }
      if slots != Slots(zones, z) {
        zones := zones[z := slots];
      }
    }

    /** The body of the loops of mob_get_nearby_players: the k-th zone around the mob's own. */
    method VisitZone(orig: ZoneId, k: nat, at: Tile, roster: Roster, max: nat, list: seq<nat>, ghost was: Table)
      returns (r: seq<nat>)
      requires forall z :: Cleans(Slots(was, z), Slots(zones, z), roster)
      requires list == First(Gathered(was, roster, at, orig, k), max)
      modifies this
      ensures forall z :: Cleans(Slots(was, z), Slots(zones, z), roster)
      ensures r == First(Gathered(was, roster, at, orig, k + 1), max)
    {
      hide Cleans, Eligible, Filtered;
      r := list;
      var zone := ZoneAround(orig, k);
      if zone.None? {
        return;
      }
      FirstAppend(Gathered(was, roster, at, orig, k), FromZone(was, roster, at, orig, k), max);
      if |list| >= max {
        return;
      }
      EligibleCleans(Slots(was, zone.value), Slots(zones, zone.value), roster);
      ghost var now := zones;
      var tmp := FindPlayers(zone.value, roster, ZONE_FETCH);
      CleansTransitive(Slots(was, zone.value), Slots(now, zone.value), Slots(zones, zone.value), roster);
      assert tmp == Fetch(was, roster, zone.value);
      r := AppendInRange(list, tmp, roster, at, max);
    }

    /** mob_get_nearby_players */
    method GetNearbyPlayers(at: Tile, roster: Roster, max: nat) returns (list: seq<nat>)
      modifies this
      ensures list == NearbyPlayers(old(zones), roster, at, max)
      ensures forall z :: Cleans(Slots(old(zones), z), Slots(zones, z), roster)
    {
      hide Cleans, Eligible, FromZone;
      list := [];
      CleansSelf(zones, roster);
      var orig := FindZone(at);
      if orig.None? {
        return;
      }
      var tmp := FindPlayers(orig.value, roster, ZONE_FETCH);
      var i := 0;
      while i < |tmp| && |list| < max
        invariant i <= |tmp| && |list| <= max && list == tmp[..i]
      {
        list := list + [tmp[i]];
        i := i + 1;
      }
      assert list == First(tmp, max);
      ghost var k := 0;
      for x := -2 to 3
        invariant forall z :: Cleans(Slots(old(zones), z), Slots(zones, z), roster)
        invariant k == 5 * (x + 2) && list == First(Gathered(old(zones), roster, at, orig.value, k), max)
      {
        for y := -2 to 3
          invariant forall z :: Cleans(Slots(old(zones), z), Slots(zones, z), roster)
          invariant k == 5 * (x + 2) + y + 2 && list == First(Gathered(old(zones), roster, at, orig.value, k), max)
        {
          list := VisitZone(orig.value, 5 * (x + 2) + y + 2, at, roster, max, list, old(zones));
          k := k + 1;
        }
      }
    }
  }

  lemma CleansSelf(zones: Table, roster: Roster)
    ensures forall z :: Cleans(Slots(zones, z), Slots(zones, z), roster)
  {
  }
}
