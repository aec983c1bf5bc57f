/**
 * What a movement packet says of every player the client knows, and who is known afterwards, in terms of the players
 * and their zones alone.
 */
module Tracking {
  import opened Bits
  import opened Collision
  import opened Walk
  import opened Zones
  import opened Nearby
  import opened NearbyProofs
  import opened MoveCodec
  import opened MoveMirror
  import opened Server

  /** The player is still there to be followed from here: visible, walked rather than teleported, two zones away at most. */
  predicate Stays(roster: Roster, here: Tile, id: int) {
    && id >= 0 && id in roster
    && var p := roster[id];
       && !p.leaving && !p.hidden && !p.teleported
       && FindZone(here).Some? && FindZone(p.at).Some?
       && var a := FindZone(here).value;
          var b := FindZone(p.at).value;
          a.plane == b.plane && -2 <= a.zx - b.zx <= 2 && -2 <= a.zy - b.zy <= 2
  }

  lemma DropIff(roster: Roster, here: Tile, id: int)
    ensures UpdateFor(roster, here, id).Drop? <==> !Stays(roster, here, id)
  {
    hide FindZone;
  }

  /** Exactly those stay known. */
  lemma KeptIff(roster: Roster, here: Tile, known: seq<int>, id: int)
    requires -1 !in known
    ensures id in Kept(roster, here, known) <==> id in known && Stays(roster, here, id)
  {
    hide Kept, UpdateFor, Stays;
    KeptPresent(roster, here, known, id);
    DropIff(roster, here, id);
  }

  /** In the order they had. */
  lemma {:induction false} KeptOrder(roster: Roster, here: Tile, known: seq<int>) returns (place: seq<nat>)
    ensures |place| == |Kept(roster, here, known)|
    ensures forall i :: 0 <= i < |place| ==> place[i] < |known| && Kept(roster, here, known)[i] == known[place[i]]
    ensures forall i, j :: 0 <= i < j < |place| ==> place[i] < place[j]
    decreases |known|
  {
    hide UpdateFor;
    place := [];
    if |known| > 0 {
      var last := known[|known| - 1];
      place := KeptOrder(roster, here, known[..|known| - 1]);
      if !(last == -1 || UpdateFor(roster, here, last).Drop?) {
        place := place + [|known| - 1];
      }
    }
  }

  // ---- what the packet tells of them ---------------------------------------------------------------------

  /** The first n updates a reader finds, and the bits behind them. */
  function ParseAll(bits: seq<bool>, n: nat): Option<(seq<Update>, seq<bool>)> {
    if n == 0 then Some(([], bits))
    else
      var u := ParseUpdate(bits);
      if u.None? then None
      else
        var r := ParseAll(u.value.1, n - 1);
        if r.None? then None else Some(([u.value.0] + r.value.0, r.value.1))
  }

  /** The update tells exactly what the player did since the last packet. */
  ghost predicate Tells(u: Update, roster: Roster, here: Tile, id: int) {
    && (u.Drop? <==> !Stays(roster, here, id))
    && (Stays(roster, here, id) ==>
          var p := roster[id];
          && (forall d :: u == StepTo(d) <==> p.moved && p.dir == d)
          && (forall d :: u == TurnTo(d) <==> !p.moved && p.dir != p.prevDir && p.dir == d)
          && (u == Still <==> !p.moved && p.dir == p.prevDir))
  }

  ghost predicate FaceRight(roster: Roster) {
    forall id :: id in roster ==> roster[id].dir <= COMBAT_RIGHT && (roster[id].moved ==> roster[id].dir <= NORTHEAST)
  }

  lemma UpdateTells(roster: Roster, here: Tile, id: int, rest: seq<bool>)
    requires FaceRight(roster)
    ensures var u := UpdateFor(roster, here, id);
            Tells(u, roster, here, id) && ParseUpdate(UpdateBits(u) + rest) == Some((u, rest))
  {
    hide ParseUpdate, UpdateBits, FindZone;
    UpdateRoundTrip(UpdateFor(roster, here, id), rest);
  }

  /** At the place of every known player the reader finds what that player did. */
  lemma {:induction false} UpdatesTell(roster: Roster, here: Tile, known: seq<int>, rest: seq<bool>)
    requires FaceRight(roster) && -1 !in known
    ensures var r := ParseAll(UpdateStream(roster, here, known) + rest, |known|);
            && r.Some? && |r.value.0| == |known| && r.value.1 == rest
            && forall i :: 0 <= i < |known| ==> Tells(r.value.0[i], roster, here, known[i])
    decreases |known|
  {
    hide ParseUpdate, UpdateBits, UpdateFor, Tells, FaceRight;
    if |known| == 0 {
      assert UpdateStream(roster, here, known) + rest == rest;
    } else {
      var u := UpdateFor(roster, here, known[0]);
      var tail := UpdateStream(roster, here, known[1..]) + rest;
      UpdateStreamFront(roster, here, known);
      UpdateTells(roster, here, known[0], tail);
      assert UpdateStream(roster, here, known) + rest == UpdateBits(u) + tail;
      UpdatesTell(roster, here, known[1..], rest);
      var r := ParseAll(tail, |known| - 1);
      forall i | 0 <= i < |known| ensures Tells(([u] + r.value.0)[i], roster, here, known[i]) {
        assert i > 0 ==> known[i] == known[1..][i - 1];
      }
    }
  }

  /** In a whole packet they stand behind position, direction and count: 34 bits, or 36. */
  lemma PacketTells(v: Viewer, roster: Roster, known: seq<int>, nearby: seq<nat>, pad: seq<bool>)
    requires FaceRight(roster) && -1 !in known
    ensures var bits := PacketBits(v, roster, known, nearby) + pad;
            var from := if v.narrow then 34 else 36;
            && |bits| >= from
            && var r := ParseAll(bits[from..], |known|);
               && r.Some? && |r.value.0| == |known|
               && forall i :: 0 <= i < |known| ==> Tells(r.value.0[i], roster, v.at, known[i])
  {
    hide BitsOf, UpdateStream, EntryStream, Kept, Absorbed, ParseAll, Tells, FaceRight;
    var head := PositionBits(v) + BitsOf(v.dir, 4) + BitsOf(|known|, 8);
    var updates := UpdateStream(roster, v.at, known);
    var rest := EntryStream(roster, v.at, NewKnown(v, roster, known, nearby)[|Kept(roster, v.at, known)|..]) + pad;
    UpdatesTell(roster, v.at, known, rest);
    assert PacketBits(v, roster, known, nearby) + pad == head + (updates + rest);
    assert (head + (updates + rest))[|head|..] == updates + rest;
  }

  // ---- who is known afterwards -----------------------------------------------------------------------------

  /** Another player that can be shown to a client. */
  predicate Showable(roster: Roster, self: nat, id: int) {
    id >= 0 && id != self && id in roster && !roster[id].leaving && !roster[id].hidden
  }

  /** Those who stay are known; so is, while the list was not full, whoever is nearby and can be shown; nobody else. */
  lemma NewKnownIff(v: Viewer, roster: Roster, known: seq<int>, nearby: seq<nat>, id: int)
    requires -1 !in known && Distinct(known)
    ensures id in NewKnown(v, roster, known, nearby)
            <==> || (id in known && Stays(roster, v.at, id))
                 || (|known| < 255 && id >= 0 && (id as nat) in nearby && Showable(roster, v.id, id))
  {
    hide Kept, Absorbed, Stays;
    KeptIff(roster, v.at, known, id);
    KeptDistinct(roster, v.at, known);
    AbsorbedMeaning(roster, v.id, Kept(roster, v.at, known), nearby, |nearby|);
    assert nearby[..|nearby|] == nearby;
  }

  /** New players are listed in the order in which they were found nearby. */
  lemma {:induction false} AbsorbedOrder(roster: Roster, self: nat, kept: seq<int>, nearby: seq<nat>, n: nat)
    returns (place: seq<nat>)
    requires n <= |nearby|
    ensures |kept| + |place| == |Absorbed(roster, self, kept, nearby, n)|
    ensures forall i :: 0 <= i < |place| ==>
                          place[i] < n && Absorbed(roster, self, kept, nearby, n)[|kept| + i] == nearby[place[i]]
    ensures forall i, j :: 0 <= i < j < |place| ==> place[i] < place[j]
    decreases n
  {
    hide Skipped;
    place := [];
    if n > 0 {
      place := AbsorbedOrder(roster, self, kept, nearby, n - 1);
      if !Skipped(roster, self, Absorbed(roster, self, kept, nearby, n - 1), nearby[n - 1]) {
        place := place + [n - 1];
      }
    }
  }

  /** The players that get an entry: those of the list that did not stay on it. */
  function Entered(s: Sending, known: seq<int>): seq<int> {
    var now := NewKnown(s.v, s.roster, known, Nearest(s));
    var kept := Kept(s.roster, s.v.at, known);
    if |kept| <= |now| then now[|kept|..] else []
  }

  /**
   * In every history, exactly those who stay and those newly in sight are on the list after a packet. Who stays keeps
   * its place among the others and gets no entry; who is new gets one.
   */
  lemma ListedIff(h: History, i: nat, id: int)
    requires IsHistory(h) && i < |h.run|
    ensures var s := h.run[i];
            var known := KnownAfter(h.run, i);
            && (id in KnownAfter(h.run, i + 1)
                <==> || (id in known && Stays(s.roster, s.v.at, id))
                     || (|known| < 255 && id >= 0 && (id as nat) in Nearest(s) && Showable(s.roster, s.v.id, id)))
            && Kept(s.roster, s.v.at, known) + Entered(s, known) == KnownAfter(h.run, i + 1)
            && (id in Entered(s, known)
                <==> id in KnownAfter(h.run, i + 1) && !(id in known && Stays(s.roster, s.v.at, id)))
  {
    hide IsHistory, IndexOk, RosterTicked, Kept, Stays, NearbyPlayers, Absorbed, EntryFits;
    var s := h.run[i];
    var known := KnownAfter(h.run, i);
    KnownConnected(h, i);
    KnownConnected(h, i + 1);
    HistoryFair(h, i);
    NewKnownIff(s.v, s.roster, known, Nearest(s), id);
    AddedFits(s.v, RosterAt(h.run, i), s.roster, s.zones, known);
    KeptIff(s.roster, s.v.at, known, id);
    SplitDistinct(KnownAfter(h.run, i + 1), |Kept(s.roster, s.v.at, known)|, id);
  }

  lemma SplitDistinct(ids: seq<int>, n: nat, id: int)
    requires Distinct(ids) && n <= |ids|
    ensures ids[..n] + ids[n..] == ids
    ensures id in ids[n..] <==> id in ids && id !in ids[..n]
  {
    if id in ids {
      var k :| 0 <= k < |ids| && ids[k] == id;
      if k < n {
        assert ids[..n][k] == id;
      } else {
        assert ids[n..][k - n] == id;
      }
    }
  }

  /** While no limit cuts anybody off, newly in sight means what it says. */
  lemma ListedInSight(h: History, i: nat, id: nat)
    requires IsHistory(h) && i < |h.run| && Unlimited(h.run[i], KnownAfter(h.run, i))
    ensures var s := h.run[i];
            id in KnownAfter(h.run, i + 1)
            <==> || (id in KnownAfter(h.run, i) && Stays(s.roster, s.v.at, id))
                 || (InSight(s.roster, s.v.at, id) && Showable(s.roster, s.v.id, id))
  {
    hide IsHistory, IndexOk, RosterTicked, KnownAfter, Stays, NearbyPlayers, InSight, FindZone, Uncrowded;
    var s := h.run[i];
    ListedIff(h, i, id);
    HistoryFair(h, i);
    NearbyExact(s.zones, s.roster, s.v.at, MAX_KNOWN_PLAYERS, id);
  }

  /** And at every packet of a history the reader finds what each known player did. */
  lemma HistoryTells(h: History, i: nat)
    requires IsHistory(h) && i < |h.run|
    ensures var s := h.run[i];
            var known := KnownAfter(h.run, i);
            var bits := BitsAt(h.run, i) + s.pad;
            var from := if s.v.narrow then 34 else 36;
            && |bits| >= from
            && var r := ParseAll(bits[from..], |known|);
               && r.Some? && |r.value.0| == |known|
               && forall k :: 0 <= k < |known| ==> Tells(r.value.0[k], s.roster, s.v.at, known[k])
  {
    hide IsHistory, IndexOk, KnownAfter, Tells, PacketBits, ParseAll, Nearest;
    var s := h.run[i];
    KnownConnected(h, i);
    HistoryFair(h, i);
    TickedFaces(RosterAt(h.run, i), s.roster);
    PacketTells(s.v, s.roster, KnownAfter(h.run, i), Nearest(s), s.pad);
  }

  lemma TickedFaces(r0: Roster, r1: Roster)
    requires RosterTicked(r0, r1)
    ensures FaceRight(r1)
  {
  }
}
