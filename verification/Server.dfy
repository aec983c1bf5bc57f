/**
 * Whole runs of the server tick: players log in and out, walk, turn and teleport; then a movement packet is made;
 * then the flags of the tick are cleared. What a client shows is the truth after every packet.
 */
module Server {
  import opened Collision
  import opened Walk
  import opened Zones
  import opened Nearby
  import opened NearbyProofs
  import opened MoveCodec
  import opened MoveMirror
  import opened Framing
  import opened Session
  import opened Wire

  // ---- what happens between two packets ---------------------------------------------------------------

  /** An act on a player, a walk along its queue, a login, a logout, or a lookup that frees stale zone slots. */
  datatype Deed =
    | Does(id: nat, act: Act)
    | Walks(id: nat, s: MobState, w: World, o: Others)
    | Joins(id: nat, p: Person, start: Option<Tile>)
    | Quits(id: nat)
    | Looks(z: ZoneId, after: seq<nat>)

  /** The players and their zone index. */
  datatype State = State(zones: Table, roster: Roster)

  /** The walk starts where the player is, and is its first step of the tick. */
  ghost predicate Starts(p: Person, s: MobState) {
    Valid(s) && s.at == p.at && s.dir == p.dir <= COMBAT_RIGHT && !s.moved && !p.moved
  }

  /** player_process_movement, as far as others can see it. */
  ghost function Walked(p: Person, s: MobState, w: World, o: Others): Person
    requires Starts(p, s)
  {
    WalkTicks(p, s, w, o);
    var t := Tick(s, w, o).0;
    p.(at := t.at, dir := t.dir, moved := t.moved)
  }

  /** A slot of last, the roster of the last packet, is not given to somebody else before the next one. */
  ghost predicate Allowed(last: Roster, st: State, d: Deed) {
    match d
    case Does(id, act) => id in st.roster && ValidAct(act)
    case Walks(id, s, _, _) => id in st.roster && Starts(st.roster[id], s)
    case Joins(id, p, start) =>
      id !in last && Enabled(st.zones, st.roster, Login(id, p, start)) && p.dir <= COMBAT_RIGHT && !p.moved
    case Quits(id) => true
    case Looks(z, after) => Enabled(st.zones, st.roster, Lookup(z, after))
  }

  /** The deed as an event of the zone index. */
  ghost function EventOf(last: Roster, st: State, d: Deed): Event
    requires Allowed(last, st, d)
  {
    match d
    case Does(id, act) => Move(id, Acted(st.roster[id], act))
    case Walks(id, s, w, o) => Move(id, Walked(st.roster[id], s, w, o))
    case Joins(id, p, start) => Login(id, p, start)
    case Quits(id) => Logout(id)
    case Looks(z, after) => Lookup(z, after)
  }

  ghost function Done(last: Roster, st: State, d: Deed): State
    requires Allowed(last, st, d)
  {
    var r := Happen(st.zones, st.roster, EventOf(last, st, d));
    State(r.0, r.1)
  }

  /** The deeds are allowed one after the other, and lead from st to end. */
  ghost predicate Leads(last: Roster, st: State, deeds: seq<Deed>, end: State)
    decreases |deeds|
  {
    if |deeds| == 0 then end == st
    else Allowed(last, st, deeds[0]) && Leads(last, Done(last, st, deeds[0]), deeds[1..], end)
  }

  /** The flags of every player cleared. */
  function FlushedAll(roster: Roster): Roster {
    map id | id in roster :: Flushed(roster[id])
  }

  /** The index is exact, and every player did what a tick allows since the last packet. */
  ghost predicate Fair(last: Roster, st: State) {
    IndexOk(st.zones, st.roster) && RosterTicked(last, st.roster)
  }

  /** One act keeps a tick a tick. */
  lemma ActTicks(b: Person, p: Person, act: Act)
    requires Ticked(b, p) && ValidAct(act)
    ensures Ticked(b, Acted(p, act))
  {
  }

  lemma WalkedTicks(p: Person, s: MobState, w: World, o: Others)
    requires Starts(p, s)
    ensures var q := Walked(p, s, w, o);
            && q.dir <= COMBAT_RIGHT && (q.moved ==> q.dir <= NORTHEAST)
            && forall b :: Ticked(b, p) ==> Ticked(b, q)
  {
    hide Tick;
    WalkTicks(p, s, w, o);
  }

  lemma MoveFair(last: Roster, st: State, id: nat, q: Person)
    requires Fair(last, st) && id in st.roster
    requires q.dir <= COMBAT_RIGHT && (q.moved ==> q.dir <= NORTHEAST)
    requires id in last ==> Ticked(last[id], q)
    ensures RosterTicked(last, st.roster[id := q])
  {
    hide IndexOk, Ticked;
  }

  lemma DeedFair(last: Roster, st: State, d: Deed)
    requires Fair(last, st) && Allowed(last, st, d)
    ensures Fair(last, Done(last, st, d))
  {
    hide IndexOk, Enabled, Acted, Walked;
    assert Enabled(st.zones, st.roster, EventOf(last, st, d)) by { EventEnabled(last, st, d); }
    HappenOk(st.zones, st.roster, EventOf(last, st, d));
    match d
    case Does(id, act) =>
      var p := st.roster[id];
      assert Acted(p, act).dir <= COMBAT_RIGHT && (Acted(p, act).moved ==> Acted(p, act).dir <= NORTHEAST) by {
        ActDir(p, act);
      }
      if id in last {
        ActTicks(last[id], p, act);
      }
      MoveFair(last, st, id, Acted(p, act));
    case Walks(id, s, w, o) =>
      WalkedTicks(st.roster[id], s, w, o);
      MoveFair(last, st, id, Walked(st.roster[id], s, w, o));
    case Joins(id, p, start) =>
    case Quits(id) =>
    case Looks(z, after) =>
  }

  lemma ActDir(p: Person, act: Act)
    requires p.dir <= COMBAT_RIGHT && (p.moved ==> p.dir <= NORTHEAST) && ValidAct(act)
    ensures var q := Acted(p, act); q.dir <= COMBAT_RIGHT && (q.moved ==> q.dir <= NORTHEAST)
  {
  }

  lemma EventEnabled(last: Roster, st: State, d: Deed)
    requires Allowed(last, st, d)
    ensures Enabled(st.zones, st.roster, EventOf(last, st, d))
  {
    hide Walked, Acted, Fresh, Cleans;
  }

  lemma {:induction false} DeedsFair(last: Roster, st: State, deeds: seq<Deed>, end: State)
    requires Fair(last, st) && Leads(last, st, deeds, end)
    ensures Fair(last, end)
    decreases |deeds|
  {
    hide Fair, Allowed, Done;
    if |deeds| > 0 {
      DeedFair(last, st, deeds[0]);
      DeedsFair(last, Done(last, st, deeds[0]), deeds[1..], end);
    }
  }

  /** Clearing the flags starts the next tick. */
  lemma FlushFair(before: Roster, st: State)
    requires Fair(before, st)
    ensures Fair(st.roster, State(st.zones, FlushedAll(st.roster)))
  {
    hide FindZone, IdsOf, Unique, Bounded, Slots;
  }

  // ---- runs ---------------------------------------------------------------------------------------------

  /** One tick: the flags are cleared and the deeds are done. */
  ghost predicate Ticks(last: Roster, before: State, deeds: seq<Deed>, after: State) {
    Leads(last, State(before.zones, FlushedAll(before.roster)), deeds, after)
  }

  /** What the server does before a client logs in, from its start; slots may be given to anybody. */
  ghost predicate Prelude(states: seq<State>, ticks: seq<seq<Deed>>) {
    && |states| == |ticks| + 1 && states[0] == State(map[], map[])
    && forall i :: 0 <= i < |ticks| ==> Ticks(map[], states[i], ticks[i], states[i + 1])
  }

  /** The server after the first n packets to the client. */
  function StateAt(start: State, run: seq<Sending>, n: nat): State
    requires n <= |run|
  {
    if n == 0 then start else State(run[n - 1].zones, run[n - 1].roster)
  }

  /** A packet for one of the players, made where that player is. */
  ghost predicate Honest(s: Sending) {
    && s.v.id in s.roster && s.v.at == s.roster[s.v.id].at && s.v.dir == s.roster[s.v.id].dir
    && |s.pad| < 8
  }

  ghost predicate RunsTick(before: State, deeds: seq<Deed>, s: Sending) {
    Ticks(before.roster, before, deeds, State(s.zones, s.roster)) && Honest(s)
  }

  /** A client is sent a packet in every tick once it has logged in. */
  ghost predicate IsRun(start: State, run: seq<Sending>, deeds: seq<seq<Deed>>) {
    |run| == |deeds| && forall i :: 0 <= i < |run| ==> RunsTick(StateAt(start, run, i), deeds[i], run[i])
  }

  /** The history of a client: the server before, and the packets it is sent. */
  datatype History = History(states: seq<State>, ticks: seq<seq<Deed>>, run: seq<Sending>, deeds: seq<seq<Deed>>)

  ghost predicate IsHistory(h: History) {
    Prelude(h.states, h.ticks) && IsRun(h.states[|h.ticks|], h.run, h.deeds)
  }

  /** The list never outgrows its array. */
  ghost predicate RoomForAll(run: seq<Sending>) {
    forall n :: 1 <= n <= |run| ==> |KnownAfter(run, n)| <= MAX_KNOWN_PLAYERS
  }

  /** Whoever looks for the first time has nothing to compare with. */
  lemma FairToNobody(last: Roster, st: State)
    requires Fair(last, st)
    ensures Fair(map[], st)
    ensures forall id :: id in st.roster ==> st.roster[id].dir <= COMBAT_RIGHT
  {
    hide IndexOk;
  }

  lemma TickFair(last: Roster, before: State, deeds: seq<Deed>, after: State)
    requires Fair(last, before) && Ticks(before.roster, before, deeds, after)
    ensures Fair(before.roster, after)
  {
    hide Leads, IndexOk, RosterTicked, Fair;
    FlushFair(last, before);
    DeedsFair(before.roster, State(before.zones, FlushedAll(before.roster)), deeds, after);
  }

  lemma {:induction false} PreludeFair(states: seq<State>, ticks: seq<seq<Deed>>, n: nat)
    requires Prelude(states, ticks) && n <= |ticks|
    ensures Fair(map[], states[n])
    decreases n
  {
    hide Leads, IndexOk, RosterTicked, Fair;
    if n == 0 {
      EmptyFair();
    } else {
      PreludeFair(states, ticks, n - 1);
      var before := states[n - 1];
      assert Ticks(map[], before, ticks[n - 1], states[n]);
      var flushed := State(before.zones, FlushedAll(before.roster));
      FlushFair(map[], before);
      FairToNobody(before.roster, flushed);
      DeedsFair(map[], flushed, ticks[n - 1], states[n]);
    }
  }

  lemma EmptyFair()
    ensures Fair(map[], State(map[], map[]))
  {
    EmptyIndexOk();
  }

  /** At every packet the index is exact, and the players have done what a tick allows. */
  lemma {:induction false} RunFair(start: State, run: seq<Sending>, deeds: seq<seq<Deed>>, n: nat)
    requires Fair(map[], start) && IsRun(start, run, deeds) && 1 <= n <= |run|
    ensures Fair(StateAt(start, run, n - 1).roster, StateAt(start, run, n))
    decreases n
  {
    hide Fair, Ticks;
    assert RunsTick(StateAt(start, run, n - 1), deeds[n - 1], run[n - 1]);
    if n == 1 {
      TickFair(map[], start, deeds[0], StateAt(start, run, 1));
    } else {
      RunFair(start, run, deeds, n - 1);
      TickFair(StateAt(start, run, n - 2).roster, StateAt(start, run, n - 1), deeds[n - 1], StateAt(start, run, n));
    }
  }

  /** In a history every packet is made from an exact index, and describes what a tick allows. */
  lemma HistoryFair(h: History, i: nat)
    requires IsHistory(h) && i < |h.run|
    ensures Honest(h.run[i]) && IndexOk(h.run[i].zones, h.run[i].roster)
    ensures RosterTicked(RosterAt(h.run, i), h.run[i].roster)
    ensures h.run[i].v.dir <= COMBAT_RIGHT
  {
    hide IndexOk, RosterTicked, Ticks;
    var start := h.states[|h.ticks|];
    assert RunsTick(StateAt(start, h.run, i), h.deeds[i], h.run[i]);
    PreludeFair(h.states, h.ticks, |h.ticks|);
    RunFair(start, h.run, h.deeds, i + 1);
    FairToNobody(StateAt(start, h.run, i).roster, StateAt(start, h.run, i + 1));
  }

  lemma HistoryPlaysAt(h: History, i: nat)
    requires IsHistory(h) && RoomForAll(h.run) && i < |h.run|
    ensures PlaysAt(h.run, i)
  {
    hide IndexOk, RosterTicked, KnownAfter, IsHistory;
    HistoryFair(h, i);
    assert |KnownAfter(h.run, i + 1)| <= MAX_KNOWN_PLAYERS;
  }

  /** Every history plays by the rules that the mirror needs. */
  lemma HistoryPlays(h: History)
    requires IsHistory(h) && RoomForAll(h.run)
    ensures Plays(h.run)
  {
    hide IsHistory, RoomForAll, PlaysAt;
    forall i | 0 <= i < |h.run| ensures PlaysAt(h.run, i) {
      HistoryPlaysAt(h, i);
    }
  }

  // ---- room for everybody ---------------------------------------------------------------------------------

  /** A list of players without repetition is no longer than there are players. */
  lemma {:induction false} ListBound(ids: seq<int>, roster: Roster)
    requires Distinct(ids) && forall i :: 0 <= i < |ids| ==> ids[i] >= 0 && ids[i] in roster
    ensures |ids| <= |roster|
    decreases |ids|
  {
    if |ids| > 0 {
      var last: nat := ids[|ids| - 1];
      var others := roster - {last};
      assert roster.Keys == others.Keys + {last};
      ListBound(ids[..|ids| - 1], others);
      assert |roster.Keys| == |others.Keys| + 1;
    }
  }

  /** Everybody on the list is connected, and is on it once. */
  lemma {:induction false} KnownConnected(h: History, n: nat)
    requires IsHistory(h) && n <= |h.run|
    ensures var known := KnownAfter(h.run, n);
            && Distinct(known) && -1 !in known
            && forall i :: 0 <= i < |known| ==> known[i] >= 0 && known[i] in RosterAt(h.run, n)
    decreases n
  {
    hide IsHistory, IndexOk, RosterTicked, NewKnown, NearbyPlayers, Kept, EntryFits;
    if n > 0 {
      KnownConnected(h, n - 1);
      HistoryFair(h, n - 1);
      var s := h.run[n - 1];
      AddedFits(s.v, RosterAt(h.run, n - 1), s.roster, s.zones, KnownAfter(h.run, n - 1));
      NowConnected(s, KnownAfter(h.run, n - 1));
    }
  }

  lemma NowConnected(s: Sending, known: seq<int>)
    requires var kept := Kept(s.roster, s.v.at, known);
             var now := NewKnown(s.v, s.roster, known, Nearest(s));
             && |kept| <= |now| && now[..|kept|] == kept
             && (forall i :: 0 <= i < |kept| ==> kept[i] >= 0 && kept[i] in s.roster)
             && (forall i :: |kept| <= i < |now| ==> now[i] >= 0 && now[i] in s.roster)
    ensures var now := NewKnown(s.v, s.roster, known, Nearest(s));
            -1 !in now && forall i :: 0 <= i < |now| ==> now[i] >= 0 && now[i] in s.roster
  {
    hide Kept, NewKnown, Nearest;
    var kept := Kept(s.roster, s.v.at, known);
    var now := NewKnown(s.v, s.roster, known, Nearest(s));
    forall i | 0 <= i < |now| ensures now[i] >= 0 && now[i] in s.roster {
      assert i < |kept| ==> now[i] == kept[i];
    }
  }

  /** With no more than 255 players connected the list never outgrows its array. */
  lemma RoomForFew(h: History)
    requires IsHistory(h) && forall i :: 0 <= i < |h.run| ==> |h.run[i].roster| <= MAX_KNOWN_PLAYERS
    ensures RoomForAll(h.run)
  {
    hide IsHistory, KnownAfter;
    forall n | 1 <= n <= |h.run| ensures |KnownAfter(h.run, n)| <= MAX_KNOWN_PLAYERS {
      KnownConnected(h, n);
      ListBound(KnownAfter(h.run, n), h.run[n - 1].roster);
    }
  }

  // ---- what the client has ----------------------------------------------------------------------------------

  /** The client stands where its player stands. */
  ghost predicate Stands(c: Option<Client>, s: Sending) {
    && c.Some? && s.v.id in s.roster && c.value.dir == s.roster[s.v.id].dir
    && (FindZone(s.roster[s.v.id].at).Some? ==> c.value.at == s.roster[s.v.id].at)
  }

  /**
   * The client shows the truth: in every history it has the server's list after every packet, each player once, where
   * it is and facing where it faces, if and only if every packet that finds no room changes nothing. And it knows its
   * own place after every packet it gets.
   */
  lemma ServerMirrors(h: History, n: nat)
    requires IsHistory(h) && RoomForAll(h.run) && n <= |h.run|
    ensures (forall k :: 0 <= k <= n ==> MirrorsAt(h.run, k)) <==> NoneMissed(h.run, n)
    ensures NoneMissed(h.run, n) && n > 0 && h.run[n - 1].sent ==> Stands(ClientAfter(h.run, n), h.run[n - 1])
  {
    hide IsHistory, Plays, ClientAfter, MirrorsAt, IdleAt, FindZone, PositionFits, RoomForAll, IndexOk, RosterTicked;
    HistoryPlays(h);
    MirrorsIff(h.run, n);
    if NoneMissed(h.run, n) && n > 0 && h.run[n - 1].sent {
      var s := h.run[n - 1];
      HistoryFair(h, n - 1);
      OwnPlace(h.run, n);
      if FindZone(s.v.at).Some? {
        OnMapFits(s.v);
      }
    }
  }

  /** What is shown is there: visible, inside the update radius, at the true place and facing the true way. */
  ghost predicate ShowsTruth(others: seq<Seen>, roster: Roster, here: Tile) {
    forall i :: 0 <= i < |others| ==>
      && Visible(roster, others[i].id) && WithinUpdateRadius(here, roster[others[i].id].at, 2)
      && others[i] == SeenOf(roster, others[i].id)
  }

  /** Somebody to be shown: another visible player in sight. */
  ghost predicate ToBeShown(s: Sending, id: nat) {
    InSight(s.roster, s.v.at, id) && id != s.v.id && Visible(s.roster, id)
  }

  /** No limit on the length of lists cuts anybody off. */
  ghost predicate Unlimited(s: Sending, known: seq<int>) {
    && (FindZone(s.v.at).Some? ==> Uncrowded(s.zones, s.roster, FindZone(s.v.at).value))
    && |Nearest(s)| < MAX_KNOWN_PLAYERS && |known| < MAX_KNOWN_PLAYERS
  }

  lemma PacketShows(s: Sending, known: seq<int>, others: seq<Seen>, id: nat)
    requires -1 !in known && Distinct(known) && IndexOk(s.zones, s.roster)
    requires Mirrors(others, s.roster, NewKnown(s.v, s.roster, known, Nearest(s)))
    ensures ShowsTruth(others, s.roster, s.v.at)
    ensures ToBeShown(s, id) && Unlimited(s, known) ==> SeenOf(s.roster, id) in others
  {
    hide FindZone, Visible, WithinUpdateRadius, InSight, Uncrowded, NearbyPlayers, NewKnown, IndexOk;
    var now := NewKnown(s.v, s.roster, known, Nearest(s));
    forall i | 0 <= i < |others|
      ensures Visible(s.roster, now[i]) && WithinUpdateRadius(s.v.at, s.roster[now[i]].at, 2)
    {
      KnownIsNear(s.v, s.roster, s.zones, known, now[i]);
    }
    if ToBeShown(s, id) && Unlimited(s, known) {
      SightIsKnown(s.v, s.roster, s.zones, known, id);
      var i :| 0 <= i < |now| && now[i] == id;
      assert others[i] == SeenOf(s.roster, id);
    }
  }

  /**
   * And it shows the right players: nobody who hides, logs out or is out of the update radius, and everybody else in
   * sight, unless a limit cuts somebody off.
   */
  lemma ClientSees(h: History, n: nat, id: nat)
    requires IsHistory(h) && RoomForAll(h.run) && 1 <= n <= |h.run| && NoneMissed(h.run, n)
    ensures var s := h.run[n - 1];
            && ClientAfter(h.run, n).Some?
            && ShowsTruth(ClientAfter(h.run, n).value.others, s.roster, s.v.at)
            && (ToBeShown(s, id) && Unlimited(s, KnownAfter(h.run, n - 1)) ==>
                  SeenOf(s.roster, id) in ClientAfter(h.run, n).value.others)
  {
    hide IsHistory, Plays, RoomForAll, ShowsTruth, ToBeShown, Unlimited, NewKnown, IndexOk, RosterTicked, ClientAfter,
         Nearest, TrueSeen, IdleAt;
    HistoryPlays(h);
    HistoryFair(h, n - 1);
    RunMirrors(h.run, n);
    KnownConnected(h, n - 1);
    PacketShows(h.run[n - 1], KnownAfter(h.run, n - 1), ClientAfter(h.run, n).value.others, id);
  }

  /** With no more than 128 players connected no limit cuts anybody off. */
  lemma NoLimitForFew(h: History, n: nat)
    requires IsHistory(h) && 1 <= n <= |h.run| && |h.run[n - 1].roster| <= 128 && |RosterAt(h.run, n - 1)| <= 128
    ensures Unlimited(h.run[n - 1], KnownAfter(h.run, n - 1))
  {
    hide IsHistory, IndexOk, RosterTicked, FindZone, NearbyPlayers, KnownAfter, InSight;
    var s := h.run[n - 1];
    HistoryFair(h, n - 1);
    KnownConnected(h, n - 1);
    ListBound(KnownAfter(h.run, n - 1), RosterAt(h.run, n - 1));
    NearbySound(s.zones, s.roster, s.v.at, MAX_KNOWN_PLAYERS);
    forall id | id in Nearest(s) ensures id in s.roster { SightPresent(s.roster, s.v.at, id); }
    ListBound(Nearest(s), s.roster);
    forall z ensures |Eligible(Slots(s.zones, z), s.roster)| <= 128 {
      EligibleFew(s.zones, s.roster, z);
    }
  }

  lemma SightPresent(roster: Roster, at: Tile, id: nat)
    requires InSight(roster, at, id)
    ensures id in roster
  {
    hide FindZone;
  }

  lemma EligibleFew(zones: Table, roster: Roster, z: ZoneId)
    requires IndexOk(zones, roster)
    ensures |Eligible(Slots(zones, z), roster)| <= |roster|
  {
    hide Eligible, IdsOf, Bounded, FindZone;
    var ids := Eligible(Slots(zones, z), roster);
    EligibleDistinct(Slots(zones, z), roster);
    forall i | 0 <= i < |ids| ensures ids[i] in roster { assert ids[i] in ids; }
    ListBound(ids, roster);
  }

  // ---- over the wire ------------------------------------------------------------------------------------------

  /**
   * From the server to the screen: in every history, whoever reads the whole stream of the connection, with whatever
   * other packets are in it, has the server's list, truly. With masked opcodes every write has to find room; without,
   * every movement packet that does not has to change nothing.
   */
  lemma StreamMirrors(h: History, u: Setup, acts: seq<Action>, narrow: bool)
    requires IsHistory(h) && RoomForAll(h.run) && forall i :: 0 <= i < |h.run| ==> h.run[i].v.narrow == narrow
    requires ValidSetup(u) && Understands(u.protocol) && Delivers(u, acts, h.run) && Spared(u, acts, h.run)
    ensures var t := TraceAt(u, acts, |acts|);
            var received := Deframe(Streamed(t));
            && ReadsAt(u, narrow, received, |received|) == ClientAfter(h.run, |h.run|)
            && MirrorsAt(h.run, |h.run|)
            && (Unsent(t.link.queue) == [] ==> Deframe(t.taken) == received)
  {
    hide IsHistory, RoomForAll, Plays, Spared, Delivers, MirrorsAt, Deframe, TraceAt, ReadsAt, ClientAfter, Streamed, Understands;
    HistoryPlays(h);
    WireMirrors(u, acts, h.run, narrow);
  }

  // ---- a packet lost --------------------------------------------------------------------------------------------

  /** Two players log in next to each other. */
  lemma TwoLogins(p: Person, q: Person) returns (st: State)
    requires p.at == Tile(100, 100) && q.at == Tile(101, 100)
    requires p.dir == NORTH && q.dir == NORTH && !p.moved && !q.moved
    ensures Leads(map[], State(map[], map[]), [Joins(0, p, None), Joins(1, q, None)], st)
    ensures st.roster == map[0 := p, 1 := q]
  {
    hide IdsOf, FindZone, Unique, Bounded, LoggedIn, IndexOk;
    var empty := State(map[], map[]);
    EmptyIndexOk();
    NobodyIn();
    var one := Done(map[], empty, Joins(0, p, None));
    assert one.roster == map[0 := p];
    LoginIds(map[], map[], 0, p.at);
    forall z ensures 1 !in IdsOf(Slots(one.zones, z)) {
      assert Fresh(map[], 1) by { NobodyAt(1); }
    }
    st := Done(map[], one, Joins(1, q, None));
    var js := [Joins(0, p, None), Joins(1, q, None)];
    assert js[1..] == [Joins(1, q, None)] && js[1..][1..] == [];
    assert Leads(map[], st, [], st);
    assert Leads(map[], one, js[1..], st);
  }

  lemma NobodyAt(id: nat)
    ensures Fresh(map[], id)
  {
    assert forall z: ZoneId :: Slots(map[], z) == [];
  }

  /** The first packet, which tells a client of its neighbour, finds no room; the second one cannot be read. */
  lemma LossInstance(p: Person, q: Person, pad: seq<bool>) returns (h: History)
    requires p.at == Tile(100, 100) && q.at == Tile(101, 100) && |pad| < 8
    requires p.dir == NORTH && q.dir == NORTH && !p.moved && !q.moved
    requires p.named && q.named && !q.hidden && !q.leaving
    ensures IsHistory(h) && RoomForAll(h.run) && |h.run| == 2 && !h.run[0].sent && h.run[1].sent
    ensures ClientAfter(h.run, 2).None?
  {
    hide Joined, IsHistory, RoomForAll, ClientAfter, Leads;
    var st := TwoLogins(p, q);
    var deeds := [Joins(0, p, None), Joins(1, q, None)];
    h := Joined(st, pad, deeds);
    JoinedHistory(st, pad, deeds);
    JoinedIs(st, pad, deeds);
    assert |st.roster| == 2;
    LossEnds(h);
  }

  lemma LossEnds(h: History)
    requires IsHistory(h) && |h.run| == 2 && !h.run[0].sent && h.run[1].sent
    requires h.run[0].v.id == 0 && h.run[0].v.at == Tile(100, 100) && |h.run[1].roster| <= 128
    requires var r := h.run[0].roster;
             |r| <= 128 && 1 in r && r[1].at == Tile(101, 100) && r[1].named && Visible(r, 1)
    ensures RoomForAll(h.run) && ClientAfter(h.run, 2).None?
  {
    hide IsHistory, RoomForAll, KnownAfter, ClientAfter, Plays, MirrorsAt;
    RoomForFew(h);
    HistoryPlays(h);
    NeighbourKnown(h);
    StartMirrors(h.run);
    LostEntryUnreadable(h.run, 0, 2);
  }

  lemma NeighbourKnown(h: History)
    requires IsHistory(h) && |h.run| > 0 && h.run[0].v.id == 0 && h.run[0].v.at == Tile(100, 100)
    requires var r := h.run[0].roster;
             |r| <= 128 && 1 in r && r[1].at == Tile(101, 100) && r[1].named && Visible(r, 1)
    ensures KnownAfter(h.run, 0) == [] && 1 in KnownAfter(h.run, 1)
  {
    hide IsHistory, IndexOk, RosterTicked, NewKnown, NearbyPlayers, FindZone, Uncrowded, InSight;
    var s := h.run[0];
    assert |RosterAt(h.run, 0)| == 0;
    NoLimitForFew(h, 1);
    HistoryFair(h, 0);
    NextDoor(s);
    SightIsKnown(s.v, s.roster, s.zones, [], 1);
  }

  /** A history of two packets, the first of which is lost, and nothing between them. */
  ghost function Joined(st: State, pad: seq<bool>, deeds: seq<Deed>): History
    requires 0 in st.roster
  {
    var next := FlushedAll(st.roster);
    var v := Viewer(0, st.roster[0].at, st.roster[0].dir, false);
    History([State(map[], map[])], [],
            [Sending(v, st.roster, st.zones, pad, false), Sending(v, next, st.zones, pad, true)], [deeds, []])
  }

  lemma JoinedIs(st: State, pad: seq<bool>, deeds: seq<Deed>)
    requires 0 in st.roster
    ensures var h := Joined(st, pad, deeds);
            && |h.run| == 2 && !h.run[0].sent && h.run[1].sent
            && h.run[0].v == Viewer(0, st.roster[0].at, st.roster[0].dir, false) && h.run[0].roster == st.roster
            && |h.run[1].roster| == |st.roster|
  {
    assert FlushedAll(st.roster).Keys == st.roster.Keys;
    assert |FlushedAll(st.roster).Keys| == |FlushedAll(st.roster)| && |st.roster.Keys| == |st.roster|;
  }

  lemma JoinedHistory(st: State, pad: seq<bool>, deeds: seq<Deed>)
    requires 0 in st.roster && |pad| < 8
    requires Leads(map[], State(map[], map[]), deeds, st)
    ensures IsHistory(Joined(st, pad, deeds))
  {
    hide Allowed, Done;
    var h := Joined(st, pad, deeds);
    var start := State(map[], map[]);
    assert FlushedAll(map[]) == map[];
    assert StateAt(start, h.run, 0) == start && StateAt(start, h.run, 1) == st;
    assert RunsTick(start, deeds, h.run[0]);
    assert RunsTick(st, [], h.run[1]);
  }

  lemma NextDoor(s: Sending)
    requires s.v.at == Tile(100, 100) && 1 in s.roster && s.roster[1].at == Tile(101, 100) && s.roster[1].named
    ensures InSight(s.roster, s.v.at, 1)
  {
  }
}
