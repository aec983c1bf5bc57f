/** A client that decodes every movement packet mirrors the server's list of known players. */
module MoveMirror {
  import opened Bits
  import opened Collision
  import opened Walk
  import opened Zones
  import opened Nearby
  import opened NearbyProofs
  import opened MoveCodec

  // ---- one tick of the players --------------------------------------------------------------------

  /** The end of a tick: the per-tick flags are cleared and the direction is remembered. */
  function Flushed(p: Person): Person {
    p.(moved := false, teleported := false, prevDir := p.dir)
  }

  /**
   * What a tick may do to a player, from the packet of one tick (b) to that of the next (a): it is teleported,
   * or takes one step with moved set and its direction in dir, or stays where it is.
   */
  ghost predicate Ticked(b: Person, a: Person) {
    && a.prevDir == b.dir && a.dir <= COMBAT_RIGHT
    && (a.moved ==> a.dir <= NORTHEAST)
    && (!a.teleported ==> a.at == if a.moved then Tile(b.at.x + DirX(a.dir), b.at.y + DirY(a.dir)) else b.at)
  }

  /** Players may also come and go, but a slot is not given to somebody else between two packets. */
  ghost predicate RosterTicked(r0: Roster, r1: Roster) {
    && (forall id :: id in r1 && id in r0 ==> Ticked(r0[id], r1[id]))
    && (forall id :: id in r1 && id !in r0 ==> r1[id].dir <= COMBAT_RIGHT && (r1[id].moved ==> r1[id].dir <= NORTHEAST))
  }

  /** What the server does to a player between two packets; whoever has moved no longer turns or steps. */
  datatype Act = Turn(dir: nat) | Walk(dir: nat) | Teleport(to: Tile) | Mark(hidden: bool, leaving: bool, named: bool)

  ghost predicate ValidAct(a: Act) {
    (a.Turn? ==> a.dir <= COMBAT_RIGHT) && (a.Walk? ==> a.dir <= NORTHEAST)
  }

  function Acted(p: Person, a: Act): Person {
    match a
    case Turn(dir) => if p.moved then p else p.(dir := dir)
    case Walk(dir) =>
      if p.moved then p else p.(at := Tile(p.at.x + DirX(dir), p.at.y + DirY(dir)), dir := dir, moved := true)
    case Teleport(to) => p.(at := to, teleported := true)
    case Mark(hidden, leaving, named) => p.(hidden := hidden, leaving := leaving, named := named)
  }

  function ActedAll(p: Person, acts: seq<Act>): Person {
    if |acts| == 0 then p else Acted(ActedAll(p, acts[..|acts| - 1]), acts[|acts| - 1])
  }

  /** Whatever is done to a player after the flags were cleared is such a tick. */
  lemma {:induction false} ActsTick(b: Person, acts: seq<Act>)
    requires b.dir <= COMBAT_RIGHT && forall a :: a in acts ==> ValidAct(a)
    ensures Ticked(b, ActedAll(Flushed(b), acts))
    decreases |acts|
  {
    if |acts| > 0 {
      assert ValidAct(acts[|acts| - 1]);
      ActsTick(b, acts[..|acts| - 1]);
    }
  }

  /** Walking the queue from a flushed state is one of them. */
  lemma WalkTicks(p: Person, s: MobState, w: World, o: Others)
    requires Valid(s) && s.at == p.at && s.dir == p.dir && !s.moved && p.dir <= COMBAT_RIGHT
    ensures var t := Tick(s, w, o).0;
            t.dir >= 0 && Ticked(p, Flushed(p).(at := t.at, dir := t.dir, moved := t.moved))
  {
    hide Advance, Retarget;
    var r := Retarget(s, o);
    assert r.at == s.at && r.dir == s.dir && r.moved == s.moved && Valid(r) by { RetargetSame(s, o); }
    AdvanceTicks(r, w, o);
  }

  lemma RetargetSame(s: MobState, o: Others)
    requires Valid(s)
    ensures var r := Retarget(s, o); r.at == s.at && r.dir == s.dir && r.moved == s.moved && Valid(r)
  {
  }

  lemma AdvanceTicks(s: MobState, w: World, o: Others)
    requires Valid(s) && !s.moved && 0 <= s.dir <= COMBAT_RIGHT
    ensures var t := Advance(s, w, o).0;
            && 0 <= t.dir <= COMBAT_RIGHT && (t.moved ==> t.dir <= NORTHEAST)
            && t.at == if t.moved then Tile(s.at.x + DirX(t.dir), s.at.y + DirY(t.dir)) else s.at
  {
    hide Collides, NextStep, StopsBefore, Chebyshev;
  }

  // ---- the mirror -------------------------------------------------------------------------------------

  /** Same players, same order, true positions and directions; nobody twice, no blanks. */
  ghost predicate Mirrors(others: seq<Seen>, roster: Roster, known: seq<int>) {
    && (forall i :: 0 <= i < |known| ==> known[i] >= 0 && known[i] in roster)
    && Distinct(known)
    && others == TrueSeen(roster, known)
  }

  lemma UpdateTrue(r0: Roster, r1: Roster, here: Tile, id: int)
    requires id >= 0 && id in r0 && RosterTicked(r0, r1)
    ensures var u := UpdateFor(r1, here, id);
            && (u.StepTo? ==> u.dir <= NORTHEAST) && (u.TurnTo? ==> u.dir <= COMBAT_RIGHT)
            && (!u.Drop? ==> id in r1)
            && Updated(SeenOf(r0, id), u) == if u.Drop? then [] else [SeenOf(r1, id)]
  {
    hide WithinUpdateRadius;
    if id in r1 {
      assert Ticked(r0[id], r1[id]);
    }
  }

  lemma {:induction false} KeptPresent(roster: Roster, here: Tile, known: seq<int>, id: int)
    requires -1 !in known
    ensures id in Kept(roster, here, known) <==> id in known && !UpdateFor(roster, here, id).Drop?
    ensures !UpdateFor(roster, here, id).Drop? ==> Visible(roster, id)
    decreases |known|
  {
    hide WithinUpdateRadius;
    if |known| > 0 {
      KeptPresent(roster, here, known[..|known| - 1], id);
      assert known == known[..|known| - 1] + [known[|known| - 1]];
    }
  }

  lemma {:induction false} KeptDistinct(roster: Roster, here: Tile, known: seq<int>)
    requires -1 !in known && Distinct(known)
    ensures Distinct(Kept(roster, here, known))
    decreases |known|
  {
    hide UpdateFor;
    if |known| > 0 {
      var before := known[..|known| - 1];
      var last := known[|known| - 1];
      KeptDistinct(roster, here, before);
      KeptPresent(roster, here, before, last);
      if !UpdateFor(roster, here, last).Drop? {
        AppendDistinct(Kept(roster, here, before), [last]);
      }
    }
  }

  lemma TrueSeenAppend(roster: Roster, a: seq<int>, b: seq<int>)
    requires forall i :: 0 <= i < |a| ==> a[i] >= 0 && a[i] in roster
    requires forall i :: 0 <= i < |b| ==> b[i] >= 0 && b[i] in roster
    ensures (forall i :: 0 <= i < |a + b| ==> (a + b)[i] >= 0 && (a + b)[i] in roster)
            && TrueSeen(roster, a + b) == TrueSeen(roster, a) + TrueSeen(roster, b)
  {
  }

  lemma TrueSeenFront(roster: Roster, ids: seq<int>)
    requires |ids| > 0 && forall i :: 0 <= i < |ids| ==> ids[i] >= 0 && ids[i] in roster
    ensures TrueSeen(roster, ids) == [SeenOf(roster, ids[0])] + TrueSeen(roster, ids[1..])
  {
    hide SeenOf;
  }

  lemma ReadUpdatesFront(u: Update, tail: seq<bool>, s: Seen, others: seq<Seen>)
    requires (u.StepTo? ==> u.dir <= NORTHEAST) && (u.TurnTo? ==> u.dir <= COMBAT_RIGHT)
    ensures ReadUpdates(UpdateBits(u) + tail, [s] + others)
         == var r := ReadUpdates(tail, others);
            if r.None? then None else Some((Updated(s, u) + r.value.0, r.value.1))
  {
    hide UpdateBits, ParseUpdate, Updated;
    UpdateRoundTrip(u, tail);
    assert ([s] + others)[1..] == others;
  }

  lemma KeptVisible(roster: Roster, here: Tile, known: seq<int>)
    requires -1 !in known
    ensures var kept := Kept(roster, here, known);
            forall i :: 0 <= i < |kept| ==> kept[i] >= 0 && kept[i] in roster
  {
    hide UpdateFor, Kept;
    var kept := Kept(roster, here, known);
    forall i | 0 <= i < |kept| ensures kept[i] >= 0 && kept[i] in roster {
      KeptPresent(roster, here, known, kept[i]);
    }
  }

  /** The updates turn the mirror of the last tick into that of this tick, for the players that stay known. */
  lemma {:induction false} UpdatesRoundTrip(r0: Roster, r1: Roster, here: Tile, known: seq<int>, rest: seq<bool>)
    requires forall i :: 0 <= i < |known| ==> known[i] >= 0 && known[i] in r0
    requires RosterTicked(r0, r1)
    ensures var kept := Kept(r1, here, known);
            && (forall i :: 0 <= i < |kept| ==> kept[i] >= 0 && kept[i] in r1)
            && ReadUpdates(UpdateStream(r1, here, known) + rest, TrueSeen(r0, known))
            == Some((TrueSeen(r1, kept), rest))
    decreases |known|
  {
    hide UpdateFor, UpdateBits, Updated, RosterTicked, TrueSeen, SeenOf, Kept, UpdateStream, ReadUpdates;
    KeptVisible(r1, here, known);
    if |known| == 0 {
      NoUpdates(r0, r1, here, known, rest);
    } else {
      var u := UpdateFor(r1, here, known[0]);
      var tail := UpdateStream(r1, here, known[1..]) + rest;
      UpdateTrue(r0, r1, here, known[0]);
      UpdateStreamFront(r1, here, known);
      assert UpdateStream(r1, here, known) + rest == UpdateBits(u) + tail;
      TrueSeenFront(r0, known);
      UpdatesRoundTrip(r0, r1, here, known[1..], rest);
      ReadUpdatesFront(u, tail, SeenOf(r0, known[0]), TrueSeen(r0, known[1..]));
      KeptFront(r1, here, known);
      if !u.Drop? {
        TrueSeenFront(r1, Kept(r1, here, known));
        assert Kept(r1, here, known)[1..] == Kept(r1, here, known[1..]);
      } else {
        assert Kept(r1, here, known) == Kept(r1, here, known[1..]);
        assert [] + TrueSeen(r1, Kept(r1, here, known[1..])) == TrueSeen(r1, Kept(r1, here, known[1..]));
      }
    }
  }

  lemma NoUpdates(r0: Roster, r1: Roster, here: Tile, known: seq<int>, rest: seq<bool>)
    requires known == []
    ensures Kept(r1, here, known) == []
    ensures ReadUpdates(UpdateStream(r1, here, known) + rest, TrueSeen(r0, known)) == Some((TrueSeen(r1, []), rest))
  {
    assert [] + rest == rest;
  }

  /** Who is known afterwards was kept, or was nearby and visible; nobody is known twice. */
  lemma {:induction false} AbsorbedMeaning(roster: Roster, self: nat, kept: seq<int>, nearby: seq<nat>, n: nat)
    requires n <= |nearby| && Distinct(kept)
    ensures Distinct(Absorbed(roster, self, kept, nearby, n))
    ensures forall id :: id in Absorbed(roster, self, kept, nearby, n) <==>
                           id in kept || (id in nearby[..n] && id != self && Visible(roster, id))
    decreases n
  {
    hide Visible;
    if n > 0 {
      AbsorbedMeaning(roster, self, kept, nearby, n - 1);
      assert nearby[..n] == nearby[..n - 1] + [nearby[n - 1]];
      var before := Absorbed(roster, self, kept, nearby, n - 1);
      if !Skipped(roster, self, before, nearby[n - 1]) {
        AppendDistinct(before, [nearby[n - 1]]);
      }
    }
  }

  /** A new player in sight can be described in an entry. */
  lemma InSightFits(zones: Table, roster: Roster, at: Tile, id: nat)
    requires IndexOk(zones, roster) && InSight(roster, at, id) && roster[id].dir <= COMBAT_RIGHT
    ensures EntryFits(roster, at, id)
  {
    hide FindZone;
  }

  /** The viewer's own position fits the field widths of its protocol revision. */
  predicate PositionFits(v: Viewer) {
    if v.narrow then 0 <= v.at.x < 1024 && 0 <= v.at.y < 4096 else 0 <= v.at.x < 2048 && 0 <= v.at.y < 8192
  }

  lemma OnMapFits(v: Viewer)
    requires FindZone(v.at).Some?
    ensures PositionFits(v)
  {
  }

  lemma NatFieldExact(v: int, n: nat)
    ensures NatOf(BitsOf(v, n)) == v <==> 0 <= v < Pow2(n)
  {
    NatOfBelow(BitsOf(v, n));
    if 0 <= v < Pow2(n) {
      NatFieldRoundTrip(v, n);
    }
  }

  lemma FieldWidths()
    ensures Pow2(4) == 16 && Pow2(10) == 1024 && Pow2(11) == 2048 && Pow2(12) == 4096 && Pow2(13) == 8192
  {
    Pow2Eight();
    assert Pow2(4) == 16;
    assert Pow2(10) == 4 * Pow2(8);
    assert Pow2(13) == 8 * Pow2(10);
  }

  /**
   * The head of a packet is read back: direction, count, and the position exactly when it fits. A count above the
   * number of players the client has makes the packet unreadable.
   */
  lemma HeadRoundTrip(v: Viewer, count: nat, rest: seq<bool>, c: Client)
    requires count <= MAX_KNOWN_PLAYERS && v.dir <= COMBAT_RIGHT
    ensures var here := if v.narrow then Tile(NatOf(BitsOf(v.at.x, 10)), NatOf(BitsOf(v.at.y, 12)))
                                    else Tile(NatOf(BitsOf(v.at.x, 11)), NatOf(BitsOf(v.at.y, 13)));
            && (here == v.at <==> PositionFits(v))
            && Read(v.narrow, PositionBits(v) + BitsOf(v.dir, 4) + BitsOf(count, 8) + rest, c)
            == if count > |c.others| then None
               else var r := ReadUpdates(rest, c.others[..count]);
                    if r.None? then None else Some(Client(here, v.dir, r.value.0 + ReadEntries(r.value.1, here)))
  {
    hide BitsOf, NatOf, ReadUpdates, ReadEntries;
    var w := if v.narrow then 10 else 11;
    var h := if v.narrow then 12 else 13;
    var bits := PositionBits(v) + BitsOf(v.dir, 4) + BitsOf(count, 8) + rest;
    assert bits[..w] == BitsOf(v.at.x, w);
    assert bits[w..w + h] == BitsOf(v.at.y, h);
    assert bits[w + h..w + h + 4] == BitsOf(v.dir, 4);
    assert bits[w + h + 4..w + h + 12] == BitsOf(count, 8);
    assert bits[w + h + 12..] == rest;
    FieldWidths();
    Pow2Eight();
    NatFieldExact(v.at.x, w);
    NatFieldExact(v.at.y, h);
    NatFieldExact(v.dir, 4);
    NatFieldExact(count, 8);
  }

  /** One tick: the packet turns the mirror of the last tick into the mirror of this one. */
  lemma PacketMirrors(v: Viewer, r0: Roster, r1: Roster, zones: Table, known: seq<int>, c: Client, pad: seq<bool>)
    requires Mirrors(c.others, r0, known) && RosterTicked(r0, r1) && IndexOk(zones, r1)
    requires |known| <= MAX_KNOWN_PLAYERS && v.dir <= COMBAT_RIGHT && |pad| < 26
    ensures var nearby := NearbyPlayers(zones, r1, v.at, MAX_KNOWN_PLAYERS);
            var now := NewKnown(v, r1, known, nearby);
            var read := Read(v.narrow, PacketBits(v, r1, known, nearby) + pad, c);
            && read.Some? && Mirrors(read.value.others, r1, now)
            && read.value.dir == v.dir && (read.value.at == v.at <==> PositionFits(v))
  {
    hide BitsOf, NatOf, ReadUpdates, ReadEntries, UpdateFor, FindZone, IndexOk, RosterTicked, NearbyPlayers,
         PositionBits, UpdateStream, EntryStream, Read, PositionFits, Kept, Absorbed;
    var nearby := NearbyPlayers(zones, r1, v.at, MAX_KNOWN_PLAYERS);
    var kept := Kept(r1, v.at, known);
    var now := NewKnown(v, r1, known, nearby);
    var added := now[|kept|..];
    AddedFits(v, r0, r1, zones, known);
    var entries := EntryStream(r1, v.at, added);
    var tail := UpdateStream(r1, v.at, known) + (entries + pad);
    HeadRoundTrip(v, |known|, tail, c);
    assert c.others[..|known|] == c.others;
    assert PacketBits(v, r1, known, nearby) + pad
        == PositionBits(v) + BitsOf(v.dir, 4) + BitsOf(|known|, 8) + tail;
    UpdatesRoundTrip(r0, r1, v.at, known, entries + pad);
    if FindZone(v.at).Some? {
      OnMapFits(v);
      EntriesRoundTrip(r1, v.at, added, pad);
    } else {
      NobodyNearby(v, r1, zones, known, pad);
    }
    TrueSeenAppend(r1, kept, added);
    assert now == kept + added;
  }

  /** What NewKnown adds to the kept players. */
  lemma AddedFits(v: Viewer, r0: Roster, r1: Roster, zones: Table, known: seq<int>)
    requires -1 !in known && Distinct(known)
    requires RosterTicked(r0, r1) && IndexOk(zones, r1)
    ensures var nearby := NearbyPlayers(zones, r1, v.at, MAX_KNOWN_PLAYERS);
            var kept := Kept(r1, v.at, known);
            var now := NewKnown(v, r1, known, nearby);
            && |kept| <= |now| && now[..|kept|] == kept && Distinct(now)
            && (forall i :: 0 <= i < |kept| ==> kept[i] >= 0 && kept[i] in r1)
            && (forall i :: |kept| <= i < |now| ==> now[i] >= 0 && now[i] in r1 && EntryFits(r1, v.at, now[i]))
  {
    hide FindZone, IndexOk, NearbyPlayers, Kept, UpdateFor, InSight, EntryFits, Absorbed, Ticked;
    var nearby := NearbyPlayers(zones, r1, v.at, MAX_KNOWN_PLAYERS);
    var kept := Kept(r1, v.at, known);
    var now := NewKnown(v, r1, known, nearby);
    forall id ensures id in kept ==> Visible(r1, id) {
      KeptPresent(r1, v.at, known, id);
    }
    KeptDistinct(r1, v.at, known);
    NearbySound(zones, r1, v.at, MAX_KNOWN_PLAYERS);
    AbsorbedMeaning(r1, v.id, kept, nearby, |nearby|);
    assert nearby[..|nearby|] == nearby;
    forall i | 0 <= i < |kept|
      ensures kept[i] >= 0 && kept[i] in r1
    {
      assert kept[i] in kept;
    }
    forall i | |kept| <= i < |now|
      ensures now[i] >= 0 && now[i] in r1 && EntryFits(r1, v.at, now[i])
    {
      assert now[i] !in kept;
      assert now[i] in now;
      DirFits(r0, r1, now[i]);
      InSightFits(zones, r1, v.at, now[i]);
    }
  }

  lemma DirFits(r0: Roster, r1: Roster, id: nat)
    requires RosterTicked(r0, r1) && id in r1
    ensures r1[id].dir <= COMBAT_RIGHT
  {
  }

  /** Off the map there is nobody to add. */
  lemma NobodyNearby(v: Viewer, r1: Roster, zones: Table, known: seq<int>, pad: seq<bool>)
    requires FindZone(v.at).None? && |pad| < 26
    ensures var nearby := NearbyPlayers(zones, r1, v.at, MAX_KNOWN_PLAYERS);
            var kept := Kept(r1, v.at, known);
            && NewKnown(v, r1, known, nearby) == kept
            && EntryStream(r1, v.at, []) + pad == pad
            && forall here :: ReadEntries(pad, here) == []
  {
    hide FindZone, Kept;
  }

  /** The known list leaves nobody out: with room to spare and no crowd, everybody in sight is on it. */
  lemma SightIsKnown(v: Viewer, r1: Roster, zones: Table, known: seq<int>, id: nat)
    requires -1 !in known && Distinct(known) && IndexOk(zones, r1)
    requires FindZone(v.at).Some? ==> Uncrowded(zones, r1, FindZone(v.at).value)
    requires |NearbyPlayers(zones, r1, v.at, MAX_KNOWN_PLAYERS)| < MAX_KNOWN_PLAYERS && |known| < MAX_KNOWN_PLAYERS
    requires InSight(r1, v.at, id) && id != v.id && Visible(r1, id)
    ensures id in NewKnown(v, r1, known, NearbyPlayers(zones, r1, v.at, MAX_KNOWN_PLAYERS))
  {
    hide FindZone, IndexOk, NearbyPlayers, Kept, UpdateFor, InSight, Absorbed, Uncrowded;
    var nearby := NearbyPlayers(zones, r1, v.at, MAX_KNOWN_PLAYERS);
    NearbyExact(zones, r1, v.at, MAX_KNOWN_PLAYERS, id);
    KeptDistinct(r1, v.at, known);
    AbsorbedMeaning(r1, v.id, Kept(r1, v.at, known), nearby, |nearby|);
    assert nearby[..|nearby|] == nearby;
  }

  /** And nobody stays on it who hides, logs out, or leaves the update radius. */
  lemma KnownIsNear(v: Viewer, r1: Roster, zones: Table, known: seq<int>, id: int)
    requires -1 !in known && Distinct(known) && IndexOk(zones, r1)
    requires id in NewKnown(v, r1, known, NearbyPlayers(zones, r1, v.at, MAX_KNOWN_PLAYERS))
    ensures Visible(r1, id) && WithinUpdateRadius(v.at, r1[id].at, 2)
  {
    hide FindZone, IndexOk, NearbyPlayers, Kept, Absorbed;
    var nearby := NearbyPlayers(zones, r1, v.at, MAX_KNOWN_PLAYERS);
    KeptPresent(r1, v.at, known, id);
    KeptDistinct(r1, v.at, known);
    NearbySound(zones, r1, v.at, MAX_KNOWN_PLAYERS);
    AbsorbedMeaning(r1, v.id, Kept(r1, v.at, known), nearby, |nearby|);
    assert nearby[..|nearby|] == nearby;
    if id in nearby {
      CloseZones(v.at, r1[id].at);
    }
  }

  // ---- runs ---------------------------------------------------------------------------------------------

  /**
   * One packet: who it is for, the players and the zone index it was made from, the stale bits behind it, and
   * whether it found room in the send buffer.
   */
  datatype Sending = Sending(v: Viewer, roster: Roster, zones: Table, pad: seq<bool>, sent: bool)

  function Nearest(s: Sending): seq<nat> {
    NearbyPlayers(s.zones, s.roster, s.v.at, MAX_KNOWN_PLAYERS)
  }

  /**
   * The server's list after the first n packets; a new session knows nobody. The list is replaced before the packet
   * is written, whether or not it then finds room.
   */
  function KnownAfter(run: seq<Sending>, n: nat): seq<int>
    requires n <= |run|
  {
    if n == 0 then [] else NewKnown(run[n - 1].v, run[n - 1].roster, KnownAfter(run, n - 1), Nearest(run[n - 1]))
  }

  function BitsAt(run: seq<Sending>, i: nat): seq<bool>
    requires i < |run|
  {
    PacketBits(run[i].v, run[i].roster, KnownAfter(run, i), Nearest(run[i]))
  }

  /** The client after the first n packets, of which it reads those sent; None once one of them made no sense. */
  function ClientAfter(run: seq<Sending>, n: nat): Option<Client>
    requires n <= |run|
  {
    if n == 0 then Some(Client(Tile(0, 0), 0, []))
    else
      var c := ClientAfter(run, n - 1);
      if c.None? || !run[n - 1].sent then c
      else Read(run[n - 1].v.narrow, BitsAt(run, n - 1) + run[n - 1].pad, c.value)
  }

  function RosterAt(run: seq<Sending>, n: nat): Roster
    requires n <= |run|
  {
    if n == 0 then map[] else run[n - 1].roster
  }

  /** The players tick from packet to packet, the index is exact, and the list never outgrows its array. */
  ghost predicate Plays(run: seq<Sending>) {
    forall i :: 0 <= i < |run| ==> PlaysAt(run, i)
  }

  ghost predicate PlaysAt(run: seq<Sending>, i: nat)
    requires i < |run|
  {
    && IndexOk(run[i].zones, run[i].roster)
    && RosterTicked(RosterAt(run, i), run[i].roster)
    && run[i].v.dir <= COMBAT_RIGHT && |run[i].pad| < 8
    && |KnownAfter(run, i + 1)| <= MAX_KNOWN_PLAYERS
  }

  /** After n packets the client has the server's list, truly. */
  ghost predicate MirrorsAt(run: seq<Sending>, n: nat)
    requires n <= |run|
  {
    && ClientAfter(run, n).Some?
    && Mirrors(ClientAfter(run, n).value.others, RosterAt(run, n), KnownAfter(run, n))
  }

  /** The player has neither stepped nor turned in the tick, or was teleported back to where it was. */
  ghost predicate Unmoved(r0: Roster, r1: Roster, id: int) {
    && id >= 0 && id in r0 && id in r1 && r1[id].dir == r1[id].prevDir
    && if r1[id].teleported then r1[id].at == r0[id].at else !r1[id].moved
  }

  /** A packet that changes nothing: the list stays as it is, and nobody on it has moved. */
  ghost predicate Idle(r0: Roster, r1: Roster, known: seq<int>, now: seq<int>) {
    now == known && forall id :: id in known ==> Unmoved(r0, r1, id)
  }

  ghost predicate IdleAt(run: seq<Sending>, i: nat)
    requires i < |run|
  {
    Idle(RosterAt(run, i), run[i].roster, KnownAfter(run, i), KnownAfter(run, i + 1))
  }

  lemma NobodyMirrored()
    ensures Mirrors([], map[], [])
  {
  }

  lemma StepMirrors(s: Sending, r0: Roster, known: seq<int>, c: Client)
    requires Mirrors(c.others, r0, known) && RosterTicked(r0, s.roster) && IndexOk(s.zones, s.roster)
    requires |known| <= MAX_KNOWN_PLAYERS && s.v.dir <= COMBAT_RIGHT && |s.pad| < 26
    ensures var read := Read(s.v.narrow, PacketBits(s.v, s.roster, known, Nearest(s)) + s.pad, c);
            && read.Some? && Mirrors(read.value.others, s.roster, NewKnown(s.v, s.roster, known, Nearest(s)))
            && read.value.dir == s.v.dir && (read.value.at == s.v.at <==> PositionFits(s.v))
  {
    PacketMirrors(s.v, r0, s.roster, s.zones, known, c, s.pad);
  }

  /** A client that does not get a packet still mirrors the server if and only if the packet changes nothing. */
  lemma LossMirrorsIff(r0: Roster, r1: Roster, known: seq<int>, now: seq<int>, others: seq<Seen>)
    requires Mirrors(others, r0, known) && RosterTicked(r0, r1)
    ensures Mirrors(others, r1, now) <==> Idle(r0, r1, known, now)
  {
    hide RosterTicked;
    if Mirrors(others, r1, now) {
      assert |now| == |others| == |known|;
      forall i | 0 <= i < |known| ensures now[i] == known[i] && Unmoved(r0, r1, known[i]) {
        assert others[i] == SeenOf(r0, known[i]) == SeenOf(r1, now[i]);
        SamePlaceUnmoved(r0, r1, known[i]);
      }
    }
    if Idle(r0, r1, known, now) {
      forall i | 0 <= i < |known| ensures known[i] in r1 && SeenOf(r1, known[i]) == SeenOf(r0, known[i]) {
        assert Unmoved(r0, r1, known[i]);
        SamePlaceUnmoved(r0, r1, known[i]);
      }
      assert TrueSeen(r1, known) == TrueSeen(r0, known);
    }
  }

  lemma SamePlaceUnmoved(r0: Roster, r1: Roster, id: int)
    requires id >= 0 && id in r0 && id in r1 && RosterTicked(r0, r1)
    ensures SeenOf(r0, id) == SeenOf(r1, id) <==> Unmoved(r0, r1, id)
  {
    assert Ticked(r0[id], r1[id]);
  }

  /** The packet after i, if it is sent and the client has mirrored the server so far. */
  lemma SentMirrors(run: seq<Sending>, i: nat)
    requires Plays(run) && i < |run| && MirrorsAt(run, i) && run[i].sent
    ensures MirrorsAt(run, i + 1)
    ensures ClientAfter(run, i + 1).value.dir == run[i].v.dir
    ensures ClientAfter(run, i + 1).value.at == run[i].v.at <==> PositionFits(run[i].v)
  {
    hide NewKnown, Read, PacketBits, IndexOk, RosterTicked, Mirrors, PositionFits, Nearest;
    assert PlaysAt(run, i);
    if i > 0 {
      assert PlaysAt(run, i - 1);
    }
    StepMirrors(run[i], RosterAt(run, i), KnownAfter(run, i), ClientAfter(run, i).value);
  }

  lemma LostMirrorsIff(run: seq<Sending>, i: nat)
    requires Plays(run) && i < |run| && MirrorsAt(run, i) && !run[i].sent
    ensures MirrorsAt(run, i + 1) <==> IdleAt(run, i)
  {
    hide NewKnown, Read, PacketBits, IndexOk, RosterTicked, Mirrors, Nearest, Idle;
    assert PlaysAt(run, i);
    LossMirrorsIff(RosterAt(run, i), run[i].roster, KnownAfter(run, i), KnownAfter(run, i + 1), ClientAfter(run, i).value.others);
  }

  /** One packet more: the mirror holds if it is sent, or changes nothing. */
  lemma MirrorStep(run: seq<Sending>, i: nat)
    requires Plays(run) && i < |run| && MirrorsAt(run, i)
    ensures MirrorsAt(run, i + 1) <==> run[i].sent || IdleAt(run, i)
  {
    hide Plays, IdleAt, MirrorsAt;
    if run[i].sent {
      SentMirrors(run, i);
    } else {
      LostMirrorsIff(run, i);
    }
  }

  /** Every packet among the first n is sent, or changes nothing. */
  ghost predicate NoneMissed(run: seq<Sending>, n: nat)
    requires n <= |run|
  {
    forall i :: 0 <= i < n ==> run[i].sent || IdleAt(run, i)
  }

  /**
   * Over every run in which each packet that finds no room changes nothing, the client has the server's list: the
   * same players in the same order, each once, at their true places and facing their true directions.
   */
  lemma {:induction false} RunMirrors(run: seq<Sending>, n: nat)
    requires Plays(run) && n <= |run| && NoneMissed(run, n)
    ensures MirrorsAt(run, n)
    decreases n
  {
    hide Plays, IdleAt, MirrorsAt;
    if n == 0 {
      StartMirrors(run);
    } else {
      RunMirrors(run, n - 1);
      MirrorStep(run, n - 1);
    }
  }

  lemma StartMirrors(run: seq<Sending>)
    ensures MirrorsAt(run, 0)
  {
    NobodyMirrored();
  }

  /** And only then: the client mirrors the server after every packet if and only if it misses none that matters. */
  lemma MirrorsIff(run: seq<Sending>, n: nat)
    requires Plays(run) && n <= |run|
    ensures (forall k :: 0 <= k <= n ==> MirrorsAt(run, k)) <==> NoneMissed(run, n)
  {
    hide Plays, IdleAt, MirrorsAt;
    if forall k :: 0 <= k <= n ==> MirrorsAt(run, k) {
      forall i | 0 <= i < n ensures run[i].sent || IdleAt(run, i) {
        assert MirrorsAt(run, i) && MirrorsAt(run, i + 1);
        MirrorStep(run, i);
      }
    }
    if NoneMissed(run, n) {
      forall k | 0 <= k <= n ensures MirrorsAt(run, k) {
        RunMirrors(run, k);
      }
    }
  }

  /** It knows its own direction after every packet it gets, and its own place exactly if that fits its field. */
  lemma OwnPlace(run: seq<Sending>, n: nat)
    requires Plays(run) && 1 <= n <= |run| && NoneMissed(run, n) && run[n - 1].sent
    ensures ClientAfter(run, n).Some? && ClientAfter(run, n).value.dir == run[n - 1].v.dir
    ensures ClientAfter(run, n).value.at == run[n - 1].v.at <==> PositionFits(run[n - 1].v)
  {
    hide Plays, MirrorsAt, IdleAt, PositionFits;
    RunMirrors(run, n - 1);
    SentMirrors(run, n - 1);
    assert MirrorsAt(run, n);
    MirrorsSome(run, n);
  }

  lemma MirrorsSome(run: seq<Sending>, n: nat)
    requires n <= |run| && MirrorsAt(run, n)
    ensures ClientAfter(run, n).Some?
  {
  }

  // ---- packets missed ------------------------------------------------------------------------------------

  /** A packet that counts more known players than the client has cannot be read. */
  lemma TooManyUnreadable(v: Viewer, roster: Roster, known: seq<int>, nearby: seq<nat>, pad: seq<bool>, c: Client)
    requires |c.others| < |known| <= MAX_KNOWN_PLAYERS && v.dir <= COMBAT_RIGHT
    ensures Read(v.narrow, PacketBits(v, roster, known, nearby) + pad, c) == None
  {
    hide BitsOf, Read, PositionBits, UpdateStream, EntryStream, Kept, Absorbed;
    var head := PositionBits(v) + BitsOf(v.dir, 4) + BitsOf(|known|, 8);
    var tail := PacketBits(v, roster, known, nearby)[|head|..] + pad;
    HeadRoundTrip(v, |known|, tail, c);
    assert PacketBits(v, roster, known, nearby) + pad == head + tail;
  }

  /** When a packet that makes the list longer finds no room, the next one sent ends the session for good. */
  lemma {:induction false} LostEntryUnreadable(run: seq<Sending>, i: nat, n: nat)
    requires Plays(run) && i + 1 < n <= |run| && MirrorsAt(run, i)
    requires !run[i].sent && |KnownAfter(run, i + 1)| > |KnownAfter(run, i)| && run[i + 1].sent
    ensures ClientAfter(run, n).None?
    decreases n
  {
    hide NewKnown, Read, PacketBits, IndexOk, RosterTicked, Nearest;
    if n > i + 2 {
      LostEntryUnreadable(run, i, n - 1);
    } else {
      assert PlaysAt(run, i) && PlaysAt(run, i + 1);
      var s := run[i + 1];
      assert ClientAfter(run, i + 1) == ClientAfter(run, i);
      TooManyUnreadable(s.v, s.roster, KnownAfter(run, i + 1), Nearest(s), s.pad, ClientAfter(run, i + 1).value);
    }
  }
}
