/** Movement packets from the server's buffer to the client's mirror, byte by byte. */
module Wire {
  import opened Bits
  import opened Collision
  import opened Walk
  import opened Zones
  import opened Nearby
  import opened MoveCodec
  import opened MoveMirror
  import opened Outgoing
  import opened Framing
  import opened Opcodes
  import opened Isaac
  import opened Session

  /** The bytes say the opcode, the packet, and whatever bits the last byte was left with. */
  ghost predicate IsPayload(p: Payload, bits: seq<bool>, pad: seq<bool>) {
    |pad| < 8 && Stream(p) == BitsOf(OP_SRV_PLAYER_MOVEMENT, 8) + bits + pad
  }

  lemma StreamPrefix(b: seq<Byte>, n: nat)
    requires n <= |b|
    ensures Stream(b[..n]) == Stream(b)[..8 * n]
  {
  }

  /** The first bytes of a buffer that holds the packet are a payload of it. */
  lemma HeadIsPayload(b: array<Byte>, bits: seq<bool>)
    requires 8 + |bits| <= 8 * b.Length
    requires Head(b, 8 + |bits|) == BitsOf(OP_SRV_PLAYER_MOVEMENT, 8) + bits
    ensures var n := (8 + |bits| + 7) / 8;
            n <= b.Length && IsPayload(b[..n], bits, Stream(b[..])[8 + |bits|..8 * n])
  {
    hide Stream, BitsOf;
    var n := (8 + |bits| + 7) / 8;
    StreamPrefix(b[..], n);
    assert b[..][..n] == b[..n];
    var s := Stream(b[..]);
    assert s[..8 * n] == s[..8 + |bits|] + s[8 + |bits|..8 * n];
  }

  /**
   * player_send_movement: the packet is built, the list replaced, and the packet handed to player_write_packet, which
   * maps and masks its opcode and queues it if there is room. The list is replaced in either case.
   */
  method SendMovement(p: Player, table: ZoneTable, roster: Roster, conn: Connection) returns (ok: bool)
    requires p.Shaped() && WalkersFace(roster) && conn.Valid() && conn.protocolRev == p.protocolRev
    requires p.tmpbuf !in conn.Arrays() && p.tmpbuf.Length <= MAX_PAYLOAD
    requires p.knownPlayers as object !in conn.Arrays() + {p.tmpbuf}
    requires p.knownPlayersSeen as object !in conn.Arrays() + {p.tmpbuf}
    requires |NewKnown(p.AsViewer(), roster, p.Known(), NearbyPlayers(table.zones, roster, Tile(p.x, p.y), MAX_KNOWN_PLAYERS))|
          <= MAX_KNOWN_PLAYERS
    modifies p`knownPlayerCount, p.tmpbuf, p.knownPlayers, p.knownPlayersSeen, table,
             conn.isaacOut, conn.isaacOut.randrsl, conn.isaacOut.mm, conn.outbox, conn.outbox.outbuf
    ensures p.Shaped() && conn.Valid()
    ensures var nearby := NearbyPlayers(old(table.zones), roster, Tile(p.x, p.y), MAX_KNOWN_PLAYERS);
            var bits := PacketBits(old(p.AsViewer()), roster, old(p.Known()), nearby);
            if 8 + |bits| <= 8 * p.tmpbuf.Length then
              && p.Known() == NewKnown(old(p.AsViewer()), roster, old(p.Known()), nearby)
              && exists payload: Packet, pad ::
                   && IsPayload(payload, bits, pad)
                   && var w := Write(old(conn.AsProtocol()), old(conn.AsLink()), payload, conn.outbox.outbuf.Length);
                      conn.AsLink() == w.1 && ok == w.0.Sent?
            else !ok && conn.AsLink() == old(conn.AsLink())
    ensures forall z :: Cleans(Slots(old(table.zones), z), Slots(table.zones, z), roster)
  {
    hide Head, PacketBits, NewKnown, NearbyPlayers, Write, Kept, Stream, BitsOf, Cleans, Passed, Slots, IsPayload;
    ghost var v := p.AsViewer();
    ghost var known := p.Known();
    ghost var nearby := NearbyPlayers(table.zones, roster, Tile(p.x, p.y), MAX_KNOWN_PLAYERS);
    var offset := p.BuildMovement(table, roster);
    if offset == -1 {
      return false;
    }
    ghost var bits := PacketBits(v, roster, known, nearby);
    HeadIsPayload(p.tmpbuf, bits);
    label Built:
    ghost var now := p.Known();
    ghost var payload: Packet := p.tmpbuf[..offset];
    assert conn.AsProtocol() == old(conn.AsProtocol()) && conn.AsLink() == old(conn.AsLink());
    ok := conn.WritePacket(p.tmpbuf, offset);
    assert p.Known() == now;
    assert IsPayload(payload, bits, Stream(old@Built(p.tmpbuf[..]))[8 + |bits|..8 * offset]);
  }

  // ---- the packets of a connection -------------------------------------------------------------------

  /** A movement payload starts with its opcode. */
  lemma PayloadOpcode(p: Payload, bits: seq<bool>, pad: seq<bool>)
    requires IsPayload(p, bits, pad)
    ensures |p| > 0 && p[0] == OP_SRV_PLAYER_MOVEMENT && Stream(p)[8..] == bits + pad
  {
    hide Stream, BitsOf;
    var head := BitsOf(OP_SRV_PLAYER_MOVEMENT, 8);
    assert (head + bits + pad)[8..] == bits + pad;
    assert Stream(p)[..8] == head;
    FirstByte(p);
    Pow2Eight();
    NatFieldRoundTrip(p[0], 8);
    NatFieldRoundTrip(OP_SRV_PLAYER_MOVEMENT, 8);
  }

  lemma FirstByte(p: Payload)
    requires |p| > 0
    ensures Stream(p)[..8] == BitsOf(p[0], 8)
  {
    forall i | 0 <= i < 8 ensures Stream(p)[i] == BitsOf(p[0], 8)[i] {
      StreamAt(p, 0, 7 - i);
      BitsOfAt(p[0], 8, i);
    }
  }

  /** The movement packets among the first n actions of a connection, and whether each found room. */
  function MovesAt(u: Setup, acts: seq<Action>, n: nat): seq<(Packet, bool)>
    requires ValidSetup(u) && n <= |acts|
  {
    if n == 0 then []
    else
      var before := MovesAt(u, acts, n - 1);
      if acts[n - 1].Put? && acts[n - 1].p[0] == OP_SRV_PLAYER_MOVEMENT then
        before + [(acts[n - 1].p, Write(u.protocol, TraceAt(u, acts, n - 1).link, acts[n - 1].p, u.cap).0.Sent?)]
      else before
  }

  /** The movement packets written on the connection, among whatever else, are those of the run. */
  ghost predicate Delivers(u: Setup, acts: seq<Action>, run: seq<Sending>)
    requires ValidSetup(u)
  {
    && |MovesAt(u, acts, |acts|)| == |run|
    && forall i :: 0 <= i < |run| ==> IsMove(MovesAt(u, acts, |acts|)[i], run, i)
  }

  ghost predicate IsMove(move: (Packet, bool), run: seq<Sending>, i: nat)
    requires i < |run|
  {
    IsPayload(move.0, BitsAt(run, i), run[i].pad) && run[i].sent == move.1
  }

  /** The peer can tell movement packets from others. */
  ghost predicate Understands(c: Protocol) {
    ValidProtocol(c) && (c.rev203 ==> TellsMovement(c.opcodesOut))
  }

  /** The opcode of a movement packet in the connection's revision. */
  function MovementCode(c: Protocol): Byte
    requires |c.opcodesOut| == 256
  {
    if c.rev203 then c.opcodesOut[OP_SRV_PLAYER_MOVEMENT] else OP_SRV_PLAYER_MOVEMENT
  }

  /** The client after the first n packets of its stream: it opens each, and reads those that are movement packets. */
  function ReadsAt(u: Setup, narrow: bool, ps: seq<Payload>, n: nat): Option<Client>
    requires ValidSetup(u) && n <= |ps|
  {
    if n == 0 then Some(Client(Tile(0, 0), 0, []))
    else
      var c := ReadsAt(u, narrow, ps, n - 1);
      if c.None? || |ps[n - 1]| == 0 then c
      else ReadPacket(u.protocol, narrow, Opened(u, ps[n - 1], n - 1), c.value)
  }

  function ReadPacket(protocol: Protocol, narrow: bool, t: Payload, c: Client): Option<Client>
    requires |protocol.opcodesOut| == 256 && |t| >= 1
  {
    if t[0] == MovementCode(protocol) then Read(narrow, Stream(t)[8..], c) else Some(c)
  }

  lemma {:induction false} ReadsPrefix(u: Setup, narrow: bool, ps: seq<Payload>, more: seq<Payload>, n: nat)
    requires ValidSetup(u) && n <= |ps|
    ensures ReadsAt(u, narrow, ps + more, n) == ReadsAt(u, narrow, ps, n)
    decreases n
  {
    hide Opened, ReadPacket;
    if n > 0 {
      ReadsPrefix(u, narrow, ps, more, n - 1);
    }
  }

  lemma {:induction false} MovesGrow(u: Setup, acts: seq<Action>, m: nat, n: nat)
    requires ValidSetup(u) && m <= n <= |acts|
    ensures MovesAt(u, acts, m) <= MovesAt(u, acts, n)
    ensures TraceAt(u, acts, m).lost <= TraceAt(u, acts, n).lost
    decreases n
  {
    hide Write, Performed;
    if m < n {
      MovesGrow(u, acts, m, n - 1);
    }
  }

  /** Mapping the opcode leaves what is read behind it, and tells movement packets from others. */
  lemma TranslatedReads(c: Protocol, narrow: bool, p: Packet, client: Client)
    requires Understands(c)
    ensures ReadPacket(c, narrow, Translated(c, p), client)
         == if p[0] == OP_SRV_PLAYER_MOVEMENT then Read(narrow, Stream(p)[8..], client) else Some(client)
  {
    hide Read, Stream;
    StreamTail(p, Translated(c, p));
  }

  lemma StreamTail(p: Payload, q: Payload)
    requires |p| == |q| >= 1 && p[1..] == q[1..]
    ensures Stream(p)[8..] == Stream(q)[8..]
  {
    forall k | 8 <= k < 8 * |p| ensures Stream(p)[k] == Stream(q)[k] {
      assert p[k / 8] == p[1..][k / 8 - 1];
    }
  }

  /** One packet queued with its own key is opened and read as it was meant. */
  lemma ShippedReads(u: Setup, narrow: bool, sent: seq<Shipped>, p: Packet, lost: nat)
    requires ValidSetup(u) && Understands(u.protocol) && (u.protocol.isaacReady ==> lost == 0)
    ensures var more := sent + [Shipped(Translated(u.protocol, p), lost)];
            var c := ReadsAt(u, narrow, WireForms(u, sent), |sent|);
            ReadsAt(u, narrow, WireForms(u, more), |more|)
            == if c.None? || p[0] != OP_SRV_PLAYER_MOVEMENT then c else Read(narrow, Stream(p)[8..], c.value)
  {
    hide Read, Stream, Opened, ReadPacket, Translated, KeyAt, WireForm;
    var more := sent + [Shipped(Translated(u.protocol, p), lost)];
    var m := WireForm(u, more, |sent|);
    FormsGrow(u, sent, more[|sent|]);
    ReadsPrefix(u, narrow, WireForms(u, sent), [m], |sent|);
    OpensIff(u, more, |sent|);
    var c := ReadsAt(u, narrow, WireForms(u, sent), |sent|);
    if c.Some? {
      TranslatedReads(u.protocol, narrow, p, c.value);
    }
  }

  lemma FormsGrow(u: Setup, sent: seq<Shipped>, x: Shipped)
    requires ValidSetup(u)
    ensures WireForms(u, sent + [x]) == WireForms(u, sent) + [WireForm(u, sent + [x], |sent|)]
  {
    hide KeyAt, Masked;
  }

  /** Without lost keys, the client reads from the stream what it would read from the movement packets alone. */
  lemma {:induction false} PeerFollows(u: Setup, acts: seq<Action>, run: seq<Sending>, narrow: bool, n: nat)
    requires ValidSetup(u) && Understands(u.protocol) && Delivers(u, acts, run) && n <= |acts|
    requires forall i :: 0 <= i < |run| ==> run[i].v.narrow == narrow
    requires u.protocol.isaacReady ==> TraceAt(u, acts, |acts|).lost == 0
    ensures var sent := TraceAt(u, acts, n).sent;
            && |MovesAt(u, acts, n)| <= |run|
            && ReadsAt(u, narrow, WireForms(u, sent), |sent|) == ClientAfter(run, |MovesAt(u, acts, n)|)
    decreases n
  {
    hide Read, Stream, Performed, Unmapped, HasRoom, WireForms, ReadsAt, IsPayload, ClientAfter, Translated;
    MovesGrow(u, acts, n, |acts|);
    if n == 0 {
      NothingRead(u, run, narrow);
    } else {
      PeerFollows(u, acts, run, narrow, n - 1);
      FollowsOne(u, acts, run, narrow, n);
    }
  }

  lemma NothingRead(u: Setup, run: seq<Sending>, narrow: bool)
    requires ValidSetup(u)
    ensures ReadsAt(u, narrow, WireForms(u, []), 0) == ClientAfter(run, 0)
  {
  }

  lemma FollowsOne(u: Setup, acts: seq<Action>, run: seq<Sending>, narrow: bool, n: nat)
    requires ValidSetup(u) && Understands(u.protocol) && Delivers(u, acts, run) && 1 <= n <= |acts|
    requires forall i :: 0 <= i < |run| ==> run[i].v.narrow == narrow
    requires u.protocol.isaacReady ==> TraceAt(u, acts, |acts|).lost == 0
    requires var sent := TraceAt(u, acts, n - 1).sent;
             && |MovesAt(u, acts, n - 1)| <= |run|
             && ReadsAt(u, narrow, WireForms(u, sent), |sent|) == ClientAfter(run, |MovesAt(u, acts, n - 1)|)
    ensures var sent := TraceAt(u, acts, n).sent;
            && |MovesAt(u, acts, n)| <= |run|
            && ReadsAt(u, narrow, WireForms(u, sent), |sent|) == ClientAfter(run, |MovesAt(u, acts, n)|)
  {
    hide Read, Stream, Performed, HasRoom, Unmapped, WireForms, ReadsAt, IsPayload, Translated, BitsAt, Write, Delivers,
         Understands, TraceAt;
    var t := TraceAt(u, acts, n - 1);
    var a := acts[n - 1];
    TraceNext(u, acts, n);
    MovesGrow(u, acts, n - 1, |acts|);
    DeliversAt(u, acts, run, n);
    PerformedMeaning(u, t, a);
    if a.Put? {
      WriteMeaning(u, t, a.p);
      if a.p[0] == OP_SRV_PLAYER_MOVEMENT {
        MoveMapped(u.protocol, a.p);
      }
      if HasRoom(u.cap, t.link.queue, |a.p|) {
        ShippedReads(u, narrow, t.sent, a.p, t.lost);
      }
    }
  }

  lemma TraceNext(u: Setup, acts: seq<Action>, n: nat)
    requires ValidSetup(u) && 1 <= n <= |acts|
    ensures TraceAt(u, acts, n) == Performed(u, TraceAt(u, acts, n - 1), acts[n - 1])
  {
  }

  lemma MoveMapped(c: Protocol, p: Packet)
    requires Understands(c) && p[0] == OP_SRV_PLAYER_MOVEMENT
    ensures !Unmapped(c, p)
  {
  }

  /** The n-th action, if it writes a movement packet, writes the next one of the run. */
  lemma DeliversAt(u: Setup, acts: seq<Action>, run: seq<Sending>, n: nat)
    requires ValidSetup(u) && Delivers(u, acts, run) && 1 <= n <= |acts|
    ensures |MovesAt(u, acts, n)| <= |run|
    ensures acts[n - 1].Put? && acts[n - 1].p[0] == OP_SRV_PLAYER_MOVEMENT ==>
              var i := |MovesAt(u, acts, n - 1)|;
              && |MovesAt(u, acts, n)| == i + 1
              && Stream(acts[n - 1].p)[8..] == BitsAt(run, i) + run[i].pad
              && run[i].sent == Write(u.protocol, TraceAt(u, acts, n - 1).link, acts[n - 1].p, u.cap).0.Sent?
  {
    hide Write, IsPayload, BitsAt, Stream, TraceAt;
    MovesGrow(u, acts, n, |acts|);
    if acts[n - 1].Put? && acts[n - 1].p[0] == OP_SRV_PLAYER_MOVEMENT {
      var i := |MovesAt(u, acts, n - 1)|;
      assert MovesAt(u, acts, |acts|)[i] == MovesAt(u, acts, n)[i];
      assert IsMove(MovesAt(u, acts, |acts|)[i], run, i);
      PayloadOpcode(acts[n - 1].p, BitsAt(run, i), run[i].pad);
    }
  }

  lemma WriteMeaning(u: Setup, t: Trace, p: Packet)
    requires ValidSetup(u) && ValidLink(t.link)
    ensures Write(u.protocol, t.link, p, u.cap).0.Sent? <==> !Unmapped(u.protocol, p) && HasRoom(u.cap, t.link.queue, |p|)
  {
  }

  // ---- the whole way -----------------------------------------------------------------------------

  /**
   * When packets are lost without harm: with masked opcodes every write must find room, of whatever packet;
   * without, every movement packet that does not must change nothing.
   */
  ghost predicate Spared(u: Setup, acts: seq<Action>, run: seq<Sending>)
    requires ValidSetup(u)
  {
    if u.protocol.isaacReady then FindsRoom(u, acts, |acts|) else NoneMissed(run, |run|)
  }

  lemma {:induction false} FoundRoom(u: Setup, acts: seq<Action>, n: nat, i: nat)
    requires ValidSetup(u) && Understands(u.protocol) && n <= |acts| && FindsRoom(u, acts, n) && i < |MovesAt(u, acts, n)|
    ensures MovesAt(u, acts, n)[i].1
    decreases n
  {
    hide Write, HasRoom, Performed;
    if i < |MovesAt(u, acts, n - 1)| {
      FoundRoom(u, acts, n - 1, i);
    } else {
      WriteMeaning(u, TraceAt(u, acts, n - 1), acts[n - 1].p);
    }
  }

  lemma SparedNoneMissed(u: Setup, acts: seq<Action>, run: seq<Sending>)
    requires ValidSetup(u) && Understands(u.protocol) && Delivers(u, acts, run) && Spared(u, acts, run)
    ensures NoneMissed(run, |run|)
    ensures u.protocol.isaacReady ==> TraceAt(u, acts, |acts|).lost == 0
  {
    hide IsPayload, MovesAt, TraceAt, IdleAt, FindsRoom;
    NoneLostIff(u, acts, |acts|);
    if u.protocol.isaacReady {
      forall i | 0 <= i < |run| ensures run[i].sent {
        assert IsMove(MovesAt(u, acts, |acts|)[i], run, i);
        FoundRoom(u, acts, |acts|, i);
      }
    }
  }

  /**
   * From bytes to players: whoever deframes the whole stream of a connection, opens its packets with a generator of
   * its own, and reads those whose opcode says movement, has the server's list, with true places and directions.
   */
  lemma WireMirrors(u: Setup, acts: seq<Action>, run: seq<Sending>, narrow: bool)
    requires ValidSetup(u) && Understands(u.protocol) && Delivers(u, acts, run) && Plays(run) && Spared(u, acts, run)
    requires forall i :: 0 <= i < |run| ==> run[i].v.narrow == narrow
    ensures var t := TraceAt(u, acts, |acts|);
            var received := Deframe(Streamed(t));
            && ReadsAt(u, narrow, received, |received|) == ClientAfter(run, |run|)
            && MirrorsAt(run, |run|)
            && (Unsent(t.link.queue) == [] ==> Deframe(t.taken) == received)
  {
    hide Plays, MirrorsAt, Spared, Deframe, TraceAt, WireForms, ReadsAt, MovesAt, ClientAfter, Streamed;
    SparedNoneMissed(u, acts, run);
    RunMirrors(run, |run|);
    PeerFollows(u, acts, run, narrow, |acts|);
    StreamSplits(u, acts, |acts|);
    ArrivedSoFar(u, acts, |acts|);
  }

  /** In a send buffer of the server's size: behind a packet of 4990 bytes no movement packet finds room. */
  lemma NoRoomInstance(u: Setup, big: Packet, m0: Packet, m1: Packet)
    requires ValidSetup(u) && !u.protocol.rev203 && !u.protocol.isaacReady && u.cap == PLAYER_BUFSIZE
    requires |big| == 4990 && big[0] != OP_SRV_PLAYER_MOVEMENT && 8 <= |m0| && |m1| <= 1026
    requires m0[0] == OP_SRV_PLAYER_MOVEMENT && m1[0] == OP_SRV_PLAYER_MOVEMENT
    ensures MovesAt(u, [Put(big), Put(m0), Drain(4992), Put(m1)], 4) == [(m0, false), (m1, true)]
  {
    hide Performed, Write;
    var acts := [Put(big), Put(m0), Drain(4992), Put(m1)];
    var t0 := TraceAt(u, acts, 0);
    var t1 := TraceAt(u, acts, 1);
    var t2 := TraceAt(u, acts, 2);
    var t3 := TraceAt(u, acts, 3);
    assert t1 == Performed(u, t0, Put(big)) && t2 == Performed(u, t1, Put(m0)) && t3 == Performed(u, t2, Drain(4992));
    QueueMeaning(u, t0, Put(big));
    QueueMeaning(u, t1, Put(m0));
    QueueMeaning(u, t2, Drain(4992));
    WriteMeaning(u, t1, m0);
    WriteMeaning(u, t3, m1);
    assert MovesAt(u, acts, 1) == [];
    assert MovesAt(u, acts, 2) == [(m0, false)] && MovesAt(u, acts, 3) == [(m0, false)];
  }

  // ---- room ----------------------------------------------------------------------------------------

  lemma {:induction false} UpdateStreamShort(roster: Roster, here: Tile, known: seq<int>)
    ensures |UpdateStream(roster, here, known)| <= 6 * |known|
    decreases |known|
  {
    if |known| > 0 {
      UpdateStreamShort(roster, here, known[..|known| - 1]);
    }
  }

  lemma {:induction false} EntryStreamShort(roster: Roster, here: Tile, ids: seq<int>)
    ensures |EntryStream(roster, here, ids)| <= 26 * |ids|
    decreases |ids|
  {
    if |ids| > 0 {
      EntryStreamShort(roster, here, ids[..|ids| - 1]);
    }
  }

  /** A packet whose lists fit their arrays fits the construction buffer, and a frame, many times over. */
  lemma PacketFits(v: Viewer, roster: Roster, known: seq<int>, nearby: seq<nat>)
    requires |known| <= MAX_KNOWN_PLAYERS && |NewKnown(v, roster, known, nearby)| <= MAX_KNOWN_PLAYERS
    ensures (8 + |PacketBits(v, roster, known, nearby)| + 7) / 8 <= 1026 <= PLAYER_BUFSIZE
  {
    hide UpdateStream, EntryStream, Kept, Absorbed;
    UpdateStreamShort(roster, v.at, known);
    EntryStreamShort(roster, v.at, NewKnown(v, roster, known, nearby)[|Kept(roster, v.at, known)|..]);
  }
}
