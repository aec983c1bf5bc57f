/** The query for nearby players against a scan of all players. */
module NearbyProofs {
  import opened Collision
  import opened Walk
  import opened Zones
  import opened Nearby

  /**
   * The scan: logged-in players on the same plane at most 15 tiles away in x and in y. Players in the zones
   * with a zero coordinate are left out, unless the mob is in the same zone.
   */
  predicate InSight(roster: Roster, at: Tile, id: nat) {
    && id in roster && roster[id].named
    && var there := roster[id].at;
       var here := FindZone(at);
       var zone := FindZone(there);
       && here.Some? && zone.Some? && here.value.plane == zone.value.plane
       && (here == zone || (zone.value.zx >= 1 && zone.value.zy >= 1))
       && Abs(there.x - at.x) <= 15 && Abs(there.y - at.y) <= 15
  }

  ghost predicate Distinct<T>(ids: seq<T>) {
    forall i, j :: 0 <= i < j < |ids| ==> ids[i] != ids[j]
  }

  // ---- one zone --------------------------------------------------------------------------------

  lemma {:induction false} EligibleDistinct(slots: seq<nat>, roster: Roster)
    requires Unique(slots)
    ensures Distinct(Eligible(slots, roster))
    decreases |slots|
  {
    if |slots| > 0 {
      var before := slots[..|slots| - 1];
      var last := slots[|slots| - 1];
      EligibleDistinct(before, roster);
      assert last != FREE ==> last !in IdsOf(before);
    }
  }

  lemma {:induction false} FilteredDistinct(ids: seq<nat>, roster: Roster, at: Tile)
    requires Distinct(ids) && forall id :: id in ids ==> id in roster
    ensures Distinct(Filtered(ids, roster, at))
    decreases |ids|
  {
    if |ids| > 0 {
      FilteredDistinct(ids[..|ids| - 1], roster, at);
    }
  }

  /** The zone array has every player of the zone in its slots, and none twice. */
  lemma FetchSound(zones: Table, roster: Roster, z: ZoneId)
    requires IndexOk(zones, roster)
    ensures Distinct(Fetch(zones, roster, z))
    ensures forall id :: id in Fetch(zones, roster, z) ==>
                           Present(roster, id) && FindZone(roster[id].at) == Some(z)
    ensures |Eligible(Slots(zones, z), roster)| <= 128 ==>
              forall id :: Present(roster, id) && FindZone(roster[id].at) == Some(z) ==> id in Fetch(zones, roster, z)
    ensures |Eligible(Slots(zones, z), roster)| > 128 ==> |Fetch(zones, roster, z)| == 128
  {
    hide Eligible, FindZone, IdsOf, Unique, Bounded, Slots;
    var all := Eligible(Slots(zones, z), roster);
    EligibleDistinct(Slots(zones, z), roster);
    assert forall id :: id in First(all, 128) ==> id in all;
  }

  // ---- the 25 zones ------------------------------------------------------------------------------

  lemma ZoneAroundMeaning(orig: ZoneId, k: nat, z: ZoneId)
    requires k < 25 && ZoneAround(orig, k) == Some(z)
    ensures z != orig && z.plane == orig.plane && z.zx >= 1 && z.zy >= 1
    ensures z.zx == orig.zx + k / 5 - 2 && z.zy == orig.zy + k % 5 - 2
  {
  }

  lemma ZoneAroundInjective(orig: ZoneId, j: nat, k: nat, z: ZoneId)
    requires j < 25 && k < 25 && ZoneAround(orig, j) == Some(z) && ZoneAround(orig, k) == Some(z)
    ensures j == k
  {
    ZoneAroundMeaning(orig, j, z);
    ZoneAroundMeaning(orig, k, z);
    assert j == 5 * (j / 5) + j % 5 && k == 5 * (k / 5) + k % 5;
  }

  /** Tiles at most 15 apart lie at most two zones apart. */
  lemma CloseZones(a: Tile, b: Tile)
    requires FindZone(a).Some? && FindZone(b).Some? && FindZone(a).value.plane == FindZone(b).value.plane
    requires Abs(a.x - b.x) <= 15 && Abs(a.y - b.y) <= 15
    ensures Abs(FindZone(a).value.zx - FindZone(b).value.zx) <= 2
    ensures Abs(FindZone(a).value.zy - FindZone(b).value.zy) <= 2
  {
    FindZoneMeaning(a);
    FindZoneMeaning(b);
  }

  /** Tiles of one zone lie at most 7 apart. */
  lemma SameZoneClose(a: Tile, b: Tile)
    requires FindZone(a).Some? && FindZone(a) == FindZone(b)
    ensures Abs(a.x - b.x) <= 7 && Abs(a.y - b.y) <= 7
  {
    FindZoneMeaning(a);
    FindZoneMeaning(b);
  }

  /** A neighbour within two zones is visited, unless it is on the rim. */
  lemma Visited(orig: ZoneId, z: ZoneId) returns (k: nat)
    requires z != orig && z.plane == orig.plane && Abs(z.zx - orig.zx) <= 2 && Abs(z.zy - orig.zy) <= 2
    requires 1 <= z.zx < ZONE_TOTAL_X && 1 <= z.zy < ZONE_TOTAL_Y && 0 <= z.plane < ZONE_MAX_PLANE
    ensures k < 25 && ZoneAround(orig, k) == Some(z)
  {
    k := 5 * (z.zx - orig.zx + 2) + (z.zy - orig.zy + 2);
    assert k / 5 == z.zx - orig.zx + 2 && k % 5 == z.zy - orig.zy + 2;
  }

  /** The zone of a player is the mob's own or one of the first k around it. */
  ghost predicate Within(orig: ZoneId, z: ZoneId, k: nat) {
    z == orig || exists j: nat :: j < k && ZoneAround(orig, j) == Some(z)
  }

  lemma FromZoneSound(zones: Table, roster: Roster, at: Tile, orig: ZoneId, k: nat, z: ZoneId)
    requires IndexOk(zones, roster) && ZoneAround(orig, k) == Some(z)
    ensures Distinct(FromZone(zones, roster, at, orig, k))
    ensures forall id :: id in FromZone(zones, roster, at, orig, k) ==>
                           Present(roster, id) && FindZone(roster[id].at) == Some(z)
                           && WithinRange(at, roster[id].at, 16)
    ensures |Eligible(Slots(zones, z), roster)| <= 128 ==>
              forall id :: Present(roster, id) && FindZone(roster[id].at) == Some(z)
                           && WithinRange(at, roster[id].at, 16)
                           ==> id in FromZone(zones, roster, at, orig, k)
  {
    hide Eligible, FindZone, IndexOk, WithinRange, Fetch, Filtered, Slots, ZoneAround;
    FetchSound(zones, roster, z);
    FilteredDistinct(Fetch(zones, roster, z), roster, at);
  }

  /** Whatever the limits cut off, what is gathered is in sight, and nobody is gathered twice. */
  lemma {:induction false} GatheredSound(zones: Table, roster: Roster, at: Tile, orig: ZoneId, k: nat)
    requires IndexOk(zones, roster) && FindZone(at) == Some(orig) && k <= 25
    ensures var ids := Gathered(zones, roster, at, orig, k);
            && Distinct(ids)
            && forall id :: id in ids ==>
                 InSight(roster, at, id) && Within(orig, FindZone(roster[id].at).value, k)
    decreases k
  {
    hide FindZone, IndexOk, FromZone, Fetch, ZoneAround, InSight;
    if k == 0 {
      FetchSound(zones, roster, orig);
      forall id | id in Fetch(zones, roster, orig)
        ensures InSight(roster, at, id)
      {
        OwnZoneInSight(roster, at, id, orig);
      }
    } else {
      GatheredSound(zones, roster, at, orig, k - 1);
      var more := FromZone(zones, roster, at, orig, k - 1);
      if ZoneAround(orig, k - 1).Some? {
        var z := ZoneAround(orig, k - 1).value;
        FromZoneSound(zones, roster, at, orig, k - 1, z);
        NotWithin(orig, z, k - 1);
        forall id | id in more
          ensures Present(roster, id) && InSight(roster, at, id) && Within(orig, FindZone(roster[id].at).value, k)
        {
          AroundInSight(roster, at, id, orig, k - 1, z);
        }
        AppendDistinct(Gathered(zones, roster, at, orig, k - 1), more);
      } else {
        assert more == [] by { FromNoZone(zones, roster, at, orig, k - 1); }
      }
    }
  }

  lemma FromNoZone(zones: Table, roster: Roster, at: Tile, orig: ZoneId, k: nat)
    requires ZoneAround(orig, k).None?
    ensures FromZone(zones, roster, at, orig, k) == []
  {
  }

  lemma NotWithin(orig: ZoneId, z: ZoneId, k: nat)
    requires k < 25 && ZoneAround(orig, k) == Some(z)
    ensures !Within(orig, z, k)
  {
    hide ZoneAround;
    ZoneAroundMeaning(orig, k, z);
    forall j: nat | j < k && ZoneAround(orig, j) == Some(z)
      ensures false
    {
      ZoneAroundInjective(orig, j, k, z);
    }
  }

  lemma AppendDistinct<T>(a: seq<T>, b: seq<T>)
    requires Distinct(a) && Distinct(b) && forall id :: id in a ==> id !in b
    ensures Distinct(a + b)
  {
    assert forall i :: 0 <= i < |a| ==> a[i] in a;
    assert forall i :: 0 <= i < |b| ==> b[i] in b;
  }

  lemma OwnZoneInSight(roster: Roster, at: Tile, id: nat, orig: ZoneId)
    requires Present(roster, id) && FindZone(at) == Some(orig) && FindZone(roster[id].at) == Some(orig)
    ensures InSight(roster, at, id)
  {
    hide FindZone;
    SameZoneClose(at, roster[id].at);
  }

  lemma AroundInSight(roster: Roster, at: Tile, id: nat, orig: ZoneId, k: nat, z: ZoneId)
    requires Present(roster, id) && FindZone(at) == Some(orig) && FindZone(roster[id].at) == Some(z)
    requires k < 25 && ZoneAround(orig, k) == Some(z) && WithinRange(at, roster[id].at, 16)
    ensures InSight(roster, at, id) && Within(orig, z, k + 1)
  {
    hide FindZone, ZoneAround;
    ZoneAroundMeaning(orig, k, z);
  }

  /** No zone near the mob holds more players than are fetched from it. */
  ghost predicate Uncrowded(zones: Table, roster: Roster, orig: ZoneId) {
    && |Eligible(Slots(zones, orig), roster)| <= 128
    && forall k :: 0 <= k < 25 && ZoneAround(orig, k).Some? ==>
                     |Eligible(Slots(zones, ZoneAround(orig, k).value), roster)| <= 128
  }

  /** A connected player's id is none that marks a free slot. */
  lemma HasSlotId(zones: Table, roster: Roster, id: nat)
    requires IndexOk(zones, roster) && id in roster
    ensures id != FREE
  {
    hide IdsOf, FindZone, Slots, Unique, Bounded;
  }

  lemma {:induction false} GatheredComplete(zones: Table, roster: Roster, at: Tile, orig: ZoneId, k: nat, id: nat)
    requires IndexOk(zones, roster) && FindZone(at) == Some(orig) && Uncrowded(zones, roster, orig) && k <= 25
    requires InSight(roster, at, id) && Within(orig, FindZone(roster[id].at).value, k)
    ensures id in Gathered(zones, roster, at, orig, k)
    decreases k
  {
    hide FindZone, IndexOk, FromZone, Fetch, ZoneAround, Eligible, Slots;
    var z := FindZone(roster[id].at).value;
    assert Present(roster, id) by { HasSlotId(zones, roster, id); }
    if k == 0 {
      FetchSound(zones, roster, orig);
    } else if ZoneAround(orig, k - 1) == Some(z) {
      FromZoneSound(zones, roster, at, orig, k - 1, z);
    } else {
      GatheredComplete(zones, roster, at, orig, k - 1, id);
    }
  }

  lemma InSightWithin(roster: Roster, at: Tile, id: nat, orig: ZoneId)
    requires InSight(roster, at, id) && FindZone(at) == Some(orig)
    ensures Within(orig, FindZone(roster[id].at).value, 25)
  {
    hide FindZone, ZoneAround;
    var there := roster[id].at;
    var z := FindZone(there).value;
    CloseZones(at, there);
    FindZoneMeaning(there);
    if z != orig {
      var k := Visited(orig, z);
    }
  }

  /** Whoever the query returns is in sight, and is returned once, whatever was cut off. */
  lemma NearbySound(zones: Table, roster: Roster, at: Tile, max: nat)
    requires IndexOk(zones, roster)
    ensures var ids := NearbyPlayers(zones, roster, at, max);
            Distinct(ids) && forall id :: id in ids ==> InSight(roster, at, id)
  {
    hide IndexOk, FindZone, Gathered, InSight;
    if FindZone(at).Some? {
      var all := Gathered(zones, roster, at, FindZone(at).value, 25);
      GatheredSound(zones, roster, at, FindZone(at).value, 25);
      assert forall id :: id in First(all, max) ==> id in all;
    }
  }

  /** When no limit cuts anything off, the query returns exactly the players in sight. */
  lemma NearbyExact(zones: Table, roster: Roster, at: Tile, max: nat, id: nat)
    requires IndexOk(zones, roster)
    requires FindZone(at).Some? ==> Uncrowded(zones, roster, FindZone(at).value)
    requires |NearbyPlayers(zones, roster, at, max)| < max
    ensures id in NearbyPlayers(zones, roster, at, max) <==> InSight(roster, at, id)
  {
    hide IndexOk, FindZone, Gathered, Uncrowded, Within;
    NearbySound(zones, roster, at, max);
    if InSight(roster, at, id) {
      var orig := FindZone(at).value;
      InSightWithin(roster, at, id, orig);
      GatheredComplete(zones, roster, at, orig, 25, id);
    }
  }
}
