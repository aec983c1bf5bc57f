/** player_send_movement: building a movement packet in place. */
module Outgoing {
  import opened Bits
  import opened Collision
  import opened Walk
  import opened Zones
  import opened Nearby
  import opened MoveCodec
  import opened Opcodes

  /** The first n bits of a buffer. */
  ghost function Head(b: array<Byte>, n: nat): (s: seq<bool>)
    requires n <= 8 * b.Length
    reads b
    ensures |s| == n
  {
    Stream(b[..])[..n]
  }

  lemma WrittenHead(s: seq<bool>, pos: nat, bits: seq<bool>)
    requires pos + |bits| <= |s|
    ensures Written(s, pos, bits)[..pos + |bits|] == s[..pos] + bits
  {
  }

  /** buf_putbits as a writer uses it, field after field. */
  method AppendBits(b: array<Byte>, bitpos: nat, num: nat, value: int) returns (ok: bool)
    requires 1 <= num <= 32 && bitpos <= 8 * b.Length
    modifies b
    ensures ok <==> bitpos + num <= 8 * b.Length
    ensures ok ==> Head(b, bitpos + num) == old(Head(b, bitpos)) + BitsOf(value, num)
  {
    hide Stream, BitsOf, Written;
    ghost var was := Stream(b[..]);
    ok := PutBits(b, bitpos, num, value);
    if ok {
      WrittenHead(was, bitpos, BitsOf(value, num));
    }
  }

  /** The statements that write one update. */
  method PutUpdate(b: array<Byte>, pos: nat, u: Update) returns (ok: bool, bitpos: nat)
    requires pos <= 8 * b.Length
    requires u.StepTo? ==> u.dir != COMBAT_LEFT && u.dir != COMBAT_RIGHT  // asserted by the server
    modifies b
    ensures ok <==> pos + |UpdateBits(u)| <= 8 * b.Length
    ensures ok ==> bitpos == pos + |UpdateBits(u)| && Head(b, bitpos) == old(Head(b, pos)) + UpdateBits(u)
  {
    hide BitsOf, Head;
    OneBit();
    bitpos := pos;
    if u.Drop? {
      ok := AppendBits(b, bitpos, 4, 15);
      if !ok { return; }
      bitpos := bitpos + 4;
    } else if u.StepTo? {
      ok := AppendBits(b, bitpos, 1, 1);
      if !ok { return; }
      bitpos := bitpos + 1;
      ok := AppendBits(b, bitpos, 1, 0);
      if !ok { return; }
      bitpos := bitpos + 1;
      ok := AppendBits(b, bitpos, 3, u.dir);
      if !ok { return; }
      bitpos := bitpos + 3;
    } else if u.TurnTo? {
      ok := AppendBits(b, bitpos, 1, 1);
      if !ok { return; }
      bitpos := bitpos + 1;
      ok := AppendBits(b, bitpos, 1, 1);
      if !ok { return; }
      bitpos := bitpos + 1;
      ok := AppendBits(b, bitpos, 4, u.dir);
      if !ok { return; }
      bitpos := bitpos + 4;
    } else {
      ok := AppendBits(b, bitpos, 1, 0);
      if !ok { return; }
      bitpos := bitpos + 1;
    }
  }

  lemma OneBit()
    ensures BitsOf(1, 1) == [true] && BitsOf(0, 1) == [false]
  {
  }

  /** The statements that write the entry of a new player. */
  method PutEntry(b: array<Byte>, pos: nat, roster: Roster, here: Tile, id: nat) returns (ok: bool, bitpos: nat)
    requires pos <= 8 * b.Length && id in roster
    modifies b
    ensures ok <==> pos + 26 <= 8 * b.Length
    ensures ok ==> bitpos == pos + 26 && Head(b, bitpos) == old(Head(b, pos)) + EntryBits(roster, here, id)
  {
    hide BitsOf, Head;
    var p := roster[id];
    bitpos := pos;
    ok := AppendBits(b, bitpos, 11, id);
    if !ok { return; }
    bitpos := bitpos + 11;
    ok := AppendBits(b, bitpos, 5, p.at.x - here.x);
    if !ok { return; }
    bitpos := bitpos + 5;
    ok := AppendBits(b, bitpos, 5, p.at.y - here.y);
    if !ok { return; }
    bitpos := bitpos + 5;
    ok := AppendBits(b, bitpos, 4, p.dir);
    if !ok { return; }
    bitpos := bitpos + 4;
    ok := AppendBits(b, bitpos, 1, 0);
    if !ok { return; }
    bitpos := bitpos + 1;
  }

  /** Nobody walks while locked in a fight: three bits have no room for the combat directions. */
  ghost predicate WalkersFace(roster: Roster) {
    forall id :: id in roster && roster[id].moved ==> roster[id].dir <= NORTHEAST
  }

  // ---- how the streams grow ----------------------------------------------------------------

  lemma NothingYet(b: array<Byte>)
    ensures Head(b, 0) == []
  {
  }

  lemma UpdateStreamNext(roster: Roster, here: Tile, known: seq<int>, i: nat)
    requires i < |known|
    ensures UpdateStream(roster, here, known[..i + 1])
         == UpdateStream(roster, here, known[..i])
            + (if known[i] == -1 then [] else UpdateBits(UpdateFor(roster, here, known[i])))
    ensures Kept(roster, here, known[..i + 1])
         == Kept(roster, here, known[..i])
            + (if Blank(roster, here, known[i]) == -1 then [] else [known[i]])
  {
    hide UpdateBits, UpdateFor;
    assert known[..i + 1][..i] == known[..i];
  }

  lemma {:induction false} UpdateStreamGrows(roster: Roster, here: Tile, known: seq<int>, i: nat)
    requires i <= |known|
    ensures |UpdateStream(roster, here, known[..i])| <= |UpdateStream(roster, here, known)|
    decreases |known|
  {
    hide UpdateBits, UpdateFor;
    if i < |known| {
      assert known[..|known| - 1][..i] == known[..i];
      UpdateStreamGrows(roster, here, known[..|known| - 1], i);
    } else {
      assert known[..i] == known;
    }
  }

  lemma WalkerUpdate(roster: Roster, here: Tile, id: int)
    requires WalkersFace(roster)
    ensures var u := UpdateFor(roster, here, id); u.StepTo? ==> u.dir <= NORTHEAST
  {
    hide WithinUpdateRadius;
  }

  lemma EntryStreamNext(roster: Roster, here: Tile, ids: seq<int>, id: int)
    ensures EntryStream(roster, here, ids + [id]) == EntryStream(roster, here, ids) + EntryBits(roster, here, id)
    ensures EntryStream(roster, here, []) == []
  {
    hide EntryBits;
    assert (ids + [id])[..|ids|] == ids;
  }

  lemma {:induction false} EntryStreamGrows(roster: Roster, here: Tile, a: seq<int>, b: seq<int>)
    requires a <= b
    ensures |EntryStream(roster, here, a)| <= |EntryStream(roster, here, b)|
    decreases |b|
  {
    hide EntryBits;
    if |a| < |b| {
      EntryStreamGrows(roster, here, a, b[..|b| - 1]);
    } else {
      assert a == b;
    }
  }

  lemma {:induction false} AbsorbedGrows(roster: Roster, self: nat, kept: seq<int>, nearby: seq<nat>, i: nat, n: nat)
    requires i <= n <= |nearby|
    ensures Absorbed(roster, self, kept, nearby, i) <= Absorbed(roster, self, kept, nearby, n)
    decreases n
  {
    hide Skipped;
    if i < n {
      AbsorbedGrows(roster, self, kept, nearby, i, n - 1);
    }
  }

  lemma AbsorbedNext(roster: Roster, self: nat, kept: seq<int>, nearby: seq<nat>, i: nat)
    requires i < |nearby|
    ensures var before := Absorbed(roster, self, kept, nearby, i);
            Absorbed(roster, self, kept, nearby, i + 1)
            == if nearby[i] == self || !Visible(roster, nearby[i]) || nearby[i] in before then before
               else before + [nearby[i]]
    ensures Absorbed(roster, self, kept, nearby, 0) == kept
  {
    hide Visible;
  }

  /** What becomes of an entry of the list when its update is written: a player dropped is blanked. */
  function Blank(roster: Roster, here: Tile, id: int): int {
    if id != -1 && UpdateFor(roster, here, id).Drop? then -1 else id
  }

  /** The list once the updates of its first n players are written. */
  function Blanked(roster: Roster, here: Tile, known: seq<int>, n: nat): seq<int>
    requires n <= |known|
  {
    seq(|known|, i requires 0 <= i < |known| => if i < n then Blank(roster, here, known[i]) else known[i])
  }

  lemma NothingBlanked(roster: Roster, here: Tile, known: seq<int>)
    ensures Blanked(roster, here, known, 0) == known
  {
  }

  lemma BlankedNext(roster: Roster, here: Tile, known: seq<int>, i: nat)
    requires i < |known|
    ensures |Blanked(roster, here, known, i)| == |known| && Blanked(roster, here, known, i)[i] == known[i]
    ensures Blanked(roster, here, known, i + 1) == Blanked(roster, here, known, i)[i := Blank(roster, here, known[i])]
  {
    hide Blank;
  }

  /** The list as the first pass leaves it, when there is room for so many bits of updates. */
  ghost predicate Passed(roster: Roster, here: Tile, known: seq<int>, room: nat, now: seq<int>) {
    exists n :: PassedAt(roster, here, known, room, now, n)
  }

  /** The first n updates fit, and the next one, if there is one, does not. */
  ghost predicate PassedAt(roster: Roster, here: Tile, known: seq<int>, room: nat, now: seq<int>, n: nat) {
    && n <= |known| && now == Blanked(roster, here, known, n)
    && |UpdateStream(roster, here, known[..n])| <= room
    && (n < |known| ==> room < |UpdateStream(roster, here, known[..n + 1])|)
  }

  /** The bits of a packet in front of its updates, opcode included. */
  function HeadBits(v: Viewer): nat {
    8 + |PositionBits(v)| + 12
  }

  /** The bits of a packet behind its head. */
  function ListBits(v: Viewer, roster: Roster, known: seq<int>, nearby: seq<nat>): seq<bool> {
    UpdateStream(roster, v.at, known)
    + EntryStream(roster, v.at, NewKnown(v, roster, known, nearby)[|Kept(roster, v.at, known)|..])
  }

  lemma PacketParts(v: Viewer, roster: Roster, known: seq<int>, nearby: seq<nat>)
    ensures var bits := ListBits(v, roster, known, nearby);
            && 8 + |PacketBits(v, roster, known, nearby)| == HeadBits(v) + |bits|
            && BitsOf(OP_SRV_PLAYER_MOVEMENT, 8) + PositionBits(v) + BitsOf(v.dir, 4) + BitsOf(|known|, 8) + bits
               == BitsOf(OP_SRV_PLAYER_MOVEMENT, 8) + PacketBits(v, roster, known, nearby)
  {
    hide BitsOf, UpdateStream, EntryStream, Kept, Absorbed;
  }

  /** player_send_movement writes at least this many bytes before it checks for room. */
  const HEAD_BYTES := 6

  class Player {
    const id: nat
    var x: int
    var y: int
    var dir: nat
    const protocolRev: nat
    const knownPlayers: array<int>
    const knownPlayersSeen: array<bool>
    var knownPlayerCount: nat
    const tmpbuf: array<Byte>

    ghost predicate Shaped()
      reads this
    {
      && knownPlayers.Length == knownPlayersSeen.Length == MAX_KNOWN_PLAYERS
      && knownPlayerCount <= MAX_KNOWN_PLAYERS && tmpbuf.Length >= HEAD_BYTES
    }

    function AsViewer(): Viewer
      reads this
    {
      Viewer(id, Tile(x, y), dir, protocolRev < 149)
    }

    ghost function Known(): seq<int>
      requires Shaped()
      reads this, knownPlayers
    {
      knownPlayers[..knownPlayerCount]
    }

    /** The opcode, the viewer's own position and direction, and the number of updates that follow. */
    method WriteHead() returns (bitpos: nat)
      requires Shaped()
      modifies tmpbuf
      ensures bitpos == HeadBits(AsViewer()) <= 8 * tmpbuf.Length
      ensures Head(tmpbuf, bitpos) == BitsOf(OP_SRV_PLAYER_MOVEMENT, 8) + PositionBits(AsViewer())
                                      + BitsOf(dir, 4) + BitsOf(knownPlayerCount, 8)
    {
      hide BitsOf, Head;
      NothingYet(tmpbuf);
      var ok := AppendBits(tmpbuf, 0, 8, OP_SRV_PLAYER_MOVEMENT);
      bitpos := 8;
      if protocolRev < 149 {
        ok := AppendBits(tmpbuf, bitpos, 10, x);
        bitpos := bitpos + 10;
        ok := AppendBits(tmpbuf, bitpos, 12, y);
        bitpos := bitpos + 12;
      } else {
        ok := AppendBits(tmpbuf, bitpos, 11, x);
        bitpos := bitpos + 11;
        ok := AppendBits(tmpbuf, bitpos, 13, y);
        bitpos := bitpos + 13;
      }
      ok := AppendBits(tmpbuf, bitpos, 4, dir);
      bitpos := bitpos + 4;
      ok := AppendBits(tmpbuf, bitpos, 8, knownPlayerCount);
      bitpos := bitpos + 8;
    }

    /** One known player: its update is written, and it is blanked or put on the new list. */
    method WriteOne(roster: Roster, here: Tile, i: nat, pos: nat, newKnown: seq<int>)
      returns (ok: bool, bitpos: nat, now: seq<int>)
      requires Shaped() && WalkersFace(roster) && pos <= 8 * tmpbuf.Length && |newKnown| <= i < knownPlayerCount
      modifies tmpbuf, knownPlayers, knownPlayersSeen
      ensures var id := old(knownPlayers[i]);
              var bits := if id == -1 then [] else UpdateBits(UpdateFor(roster, here, id));
              && (ok <==> pos + |bits| <= 8 * tmpbuf.Length)
              && (ok ==>
                    && bitpos == pos + |bits| && Head(tmpbuf, bitpos) == old(Head(tmpbuf, pos)) + bits
                    && now == newKnown + (if Blank(roster, here, id) == -1 then [] else [id])
                    && (|now| > |newKnown| ==> knownPlayersSeen[|newKnown|]))
              && Known() == if ok then old(Known())[i := Blank(roster, here, id)] else old(Known())
      ensures forall j :: 0 <= j < |newKnown| ==> knownPlayersSeen[j] == old(knownPlayersSeen[j])
    {
      hide Head, UpdateBits, UpdateFor;
      ok, bitpos, now := true, pos, newKnown;
      if knownPlayers[i] == -1 {
        assert Head(tmpbuf, pos) + [] == Head(tmpbuf, pos);
        return;
      }
      var u := UpdateFor(roster, here, knownPlayers[i]);
      WalkerUpdate(roster, here, knownPlayers[i]);
      ok, bitpos := PutUpdate(tmpbuf, bitpos, u);
      if !ok {
        return;
      }
      if u.Drop? {
        knownPlayers[i] := -1;
      }
      if knownPlayers[i] != -1 {
        knownPlayersSeen[|newKnown|] := true;
        now := newKnown + [knownPlayers[i]];
      }
    }

    /** The players the client already knows. */
    method WriteKnown(roster: Roster, pos: nat) returns (ok: bool, bitpos: nat, newKnown: seq<int>)
      requires Shaped() && WalkersFace(roster) && pos <= 8 * tmpbuf.Length
      modifies tmpbuf, knownPlayers, knownPlayersSeen
      ensures ok <==> pos + |UpdateStream(roster, Tile(x, y), old(Known()))| <= 8 * tmpbuf.Length
      ensures ok ==> var bits := UpdateStream(roster, Tile(x, y), old(Known()));
                     bitpos == pos + |bits| && Head(tmpbuf, bitpos) == old(Head(tmpbuf, pos)) + bits
      ensures ok ==> newKnown == Kept(roster, Tile(x, y), old(Known()))
                     && (forall i :: 0 <= i < |newKnown| ==> knownPlayersSeen[i])
      ensures Passed(roster, Tile(x, y), old(Known()), 8 * tmpbuf.Length - pos, Known())
    {
      hide Head, UpdateBits, UpdateFor, UpdateStream, Kept, Blank, Blanked;
      var here := Tile(x, y);
      ghost var known := Known();
      ghost var room := 8 * tmpbuf.Length - pos;
      ok, bitpos, newKnown := true, pos, [];
      NothingKnown(roster, here);
      NothingBlanked(roster, here, known);
      assert Head(tmpbuf, pos) == old(Head(tmpbuf, pos)) + [];
      for i := 0 to knownPlayerCount
        invariant knownPlayerCount == |known| && Known() == Blanked(roster, here, known, i)
        invariant bitpos == pos + |UpdateStream(roster, here, known[..i])| <= 8 * tmpbuf.Length
        invariant Head(tmpbuf, bitpos) == old(Head(tmpbuf, pos)) + UpdateStream(roster, here, known[..i])
        invariant newKnown == Kept(roster, here, known[..i]) && |newKnown| <= i
        invariant forall j :: 0 <= j < |newKnown| ==> knownPlayersSeen[j]
      {
        BlankedNext(roster, here, known, i);
        UpdateStreamNext(roster, here, known, i);
        UpdateStreamGrows(roster, here, known, i + 1);
        assert knownPlayers[i] == Known()[i] == known[i];
        ok, bitpos, newKnown := WriteOne(roster, here, i, bitpos, newKnown);
        if !ok {
          assert PassedAt(roster, here, known, room, Known(), i);
          return;
        }
      }
      assert known[..|known|] == known;
      assert PassedAt(roster, here, known, room, Known(), |known|);
    }

    lemma NothingKnown(roster: Roster, here: Tile)
      ensures UpdateStream(roster, here, []) == [] && Kept(roster, here, []) == []
    {
    }

    /** The inner loop of the second pass: is the player on the new list already? */
    method OnNewList(newKnown: seq<int>, other: nat) returns (known: bool)
      ensures known <==> other in newKnown
    {
      known := false;
      for j := 0 to |newKnown|
        invariant other !in newKnown[..j]
      {
        if newKnown[j] == other {
          return true;
        }
      }
    }

    /** The list after the second pass. */
    ghost function Now(roster: Roster, kept: seq<int>, nearby: seq<nat>): seq<int>
      reads this
    {
      if knownPlayerCount >= MAX_KNOWN_PLAYERS then kept else Absorbed(roster, id, kept, nearby, |nearby|)
    }

    lemma AddedNext(roster: Roster, here: Tile, self: nat, kept: seq<int>, nearby: seq<nat>, i: nat, added: seq<int>)
      requires i < |nearby| && Absorbed(roster, self, kept, nearby, i) == kept + added
      ensures var skipped := Skipped(roster, self, kept + added, nearby[i]);
              var more := added + (if skipped then [] else [nearby[i]]);
              && Absorbed(roster, self, kept, nearby, i + 1) == kept + more
              && |Absorbed(roster, self, kept, nearby, |nearby|)| >= |kept + more|
              && EntryStream(roster, here, more)
                 == EntryStream(roster, here, added) + (if skipped then [] else EntryBits(roster, here, nearby[i]))
              && |EntryStream(roster, here, more)| == |EntryStream(roster, here, added)| + (if skipped then 0 else 26)
              && |EntryStream(roster, here, more)|
                 <= |EntryStream(roster, here, Absorbed(roster, self, kept, nearby, |nearby|)[|kept|..])|
    {
      hide EntryBits, Absorbed, EntryStream, Visible;
      var now := Absorbed(roster, self, kept, nearby, |nearby|);
      var more := added + (if Skipped(roster, self, kept + added, nearby[i]) then [] else [nearby[i]]);
      AbsorbedNext(roster, self, kept, nearby, i);
      AbsorbedGrows(roster, self, kept, nearby, i + 1, |nearby|);
      assert kept + (added + [nearby[i]]) == kept + added + [nearby[i]];
      EntryStreamGrows(roster, here, more, now[|kept|..]);
      EntryStreamNext(roster, here, added, nearby[i]);
      if Visible(roster, nearby[i]) {
        EntryLength(roster, here, nearby[i]);
      }
    }

    /** One nearby player: unless it is skipped, its entry is written and it is put on the new list. */
    method ConsiderNew(roster: Roster, here: Tile, newKnown: seq<int>, pos: nat, other: nat)
      returns (ok: bool, bitpos: nat, now: seq<int>)
      requires Shaped() && pos <= 8 * tmpbuf.Length
      requires !Skipped(roster, id, newKnown, other) ==> |newKnown| < MAX_KNOWN_PLAYERS
      modifies tmpbuf, knownPlayersSeen
      ensures var skipped := Skipped(roster, id, newKnown, other);
              && (ok <==> skipped || pos + 26 <= 8 * tmpbuf.Length)
              && (ok ==>
                    && now == newKnown + (if skipped then [] else [other])
                    && bitpos == pos + (if skipped then 0 else 26) && bitpos <= 8 * tmpbuf.Length
                    && Head(tmpbuf, bitpos)
                       == old(Head(tmpbuf, pos)) + (if skipped then [] else EntryBits(roster, here, other))
                    && (!skipped ==> !knownPlayersSeen[|newKnown|]))
      ensures forall j :: 0 <= j < |newKnown| && j < MAX_KNOWN_PLAYERS ==> knownPlayersSeen[j] == old(knownPlayersSeen[j])
    {
      hide Head, EntryBits;
      ok, bitpos, now := true, pos, newKnown;
      if other == id || !Visible(roster, other) {
        return;
      }
      var known := OnNewList(newKnown, other);
      if known {
        return;
      }
      ok, bitpos := PutEntry(tmpbuf, pos, roster, here, other);
      if ok {
        knownPlayersSeen[|newKnown|] := false;
        now := newKnown + [other];
      }
    }

    /** The players the client does not know about yet. */
    method WriteNew(roster: Roster, nearby: seq<nat>, pos: nat, kept: seq<int>)
      returns (ok: bool, bitpos: nat, newKnown: seq<int>)
      requires Shaped() && pos <= 8 * tmpbuf.Length && |Now(roster, kept, nearby)| <= MAX_KNOWN_PLAYERS
      modifies tmpbuf, knownPlayersSeen
      ensures var now := Now(roster, kept, nearby);
              var bits := EntryStream(roster, Tile(x, y), now[|kept|..]);
              && (ok <==> pos + |bits| <= 8 * tmpbuf.Length)
              && (ok ==>
                    && newKnown == now
                    && bitpos == pos + |bits| && Head(tmpbuf, bitpos) == old(Head(tmpbuf, pos)) + bits)
      ensures ok ==> forall j :: 0 <= j < |newKnown| ==>
                                   knownPlayersSeen[j] == (j < |kept| && old(knownPlayersSeen[j]))
    {
      hide Head, EntryBits, Absorbed, EntryStream, Skipped;
      var here := Tile(x, y);
      ghost var now := Now(roster, kept, nearby);
      ok, bitpos, newKnown := true, pos, kept;
      ghost var added: seq<int> := [];
      EntryStreamNext(roster, here, [], 0);
      assert Head(tmpbuf, pos) == old(Head(tmpbuf, pos)) + [];
      AbsorbedNone(roster, id, kept, nearby);
      var i := 0;
      while i < |nearby|
        invariant i <= |nearby| && |newKnown| <= MAX_KNOWN_PLAYERS
        invariant knownPlayerCount >= MAX_KNOWN_PLAYERS ==> i == 0
        invariant newKnown == kept + added && Absorbed(roster, id, kept, nearby, i) == newKnown
        invariant bitpos == pos + |EntryStream(roster, here, added)| <= 8 * tmpbuf.Length
        invariant Head(tmpbuf, bitpos) == old(Head(tmpbuf, pos)) + EntryStream(roster, here, added)
        invariant forall j :: 0 <= j < |newKnown| ==>
                                knownPlayersSeen[j] == (j < |kept| && old(knownPlayersSeen[j]))
      {
        if knownPlayerCount >= MAX_KNOWN_PLAYERS {
          break;
        }
        AddedNext(roster, here, id, kept, nearby, i, added);
        ghost var skipped := Skipped(roster, id, newKnown, nearby[i]);
        ok, bitpos, newKnown := ConsiderNew(roster, here, newKnown, bitpos, nearby[i]);
        if !ok {
          return;
        }
        added := added + (if skipped then [] else [nearby[i]]);
        i := i + 1;
      }
      assert now[|kept|..] == added;
    }

    lemma AbsorbedNone(roster: Roster, self: nat, kept: seq<int>, nearby: seq<nat>)
      ensures Absorbed(roster, self, kept, nearby, 0) == kept == kept + []
    {
    }

    lemma EntryLength(roster: Roster, here: Tile, id: nat)
      requires Visible(roster, id)
      ensures id in roster && |EntryBits(roster, here, id)| == 26
    {
    }

    /** The two passes over the players: those the client knows, and those nearby. */
    method WriteLists(roster: Roster, nearby: seq<nat>, pos: nat) returns (ok: bool, bitpos: nat, newKnown: seq<int>)
      requires Shaped() && WalkersFace(roster) && pos <= 8 * tmpbuf.Length
      requires |NewKnown(AsViewer(), roster, Known(), nearby)| <= MAX_KNOWN_PLAYERS
      modifies tmpbuf, knownPlayers, knownPlayersSeen
      ensures var bits := ListBits(old(AsViewer()), roster, old(Known()), nearby);
              && (ok <==> pos + |bits| <= 8 * tmpbuf.Length)
              && (ok ==> bitpos == pos + |bits| && Head(tmpbuf, bitpos) == old(Head(tmpbuf, pos)) + bits)
      ensures ok ==> newKnown == NewKnown(old(AsViewer()), roster, old(Known()), nearby)
      ensures ok ==> forall i :: 0 <= i < |newKnown| ==>
                                   (knownPlayersSeen[i] <==> i < |Kept(roster, Tile(x, y), old(Known()))|)
      ensures Passed(roster, Tile(x, y), old(Known()), 8 * tmpbuf.Length - pos, Known())
    {
      hide Head, Absorbed, EntryStream, UpdateStream, Kept, Passed;
      ok, bitpos, newKnown := WriteKnown(roster, pos);
      if ok {
        ok, bitpos, newKnown := WriteNew(roster, nearby, bitpos, newKnown);
      }
    }

    /**
     * player_send_movement, up to the call of player_write_packet: the number of bytes to send, or -1. The
     * server does not check that its arrays have room for the new list; here its length is a precondition.
     */
    method BuildMovement(table: ZoneTable, roster: Roster) returns (offset: int)
      requires Shaped() && WalkersFace(roster)
      requires |NewKnown(AsViewer(), roster, Known(), NearbyPlayers(table.zones, roster, Tile(x, y), MAX_KNOWN_PLAYERS))|
            <= MAX_KNOWN_PLAYERS
      modifies this`knownPlayerCount, tmpbuf, knownPlayers, knownPlayersSeen, table
      ensures Shaped()
      ensures var nearby := NearbyPlayers(old(table.zones), roster, Tile(x, y), MAX_KNOWN_PLAYERS);
              var bits := PacketBits(old(AsViewer()), roster, old(Known()), nearby);
              if 8 + |bits| <= 8 * tmpbuf.Length then
                && offset == (8 + |bits| + 7) / 8
                && Head(tmpbuf, 8 + |bits|) == BitsOf(OP_SRV_PLAYER_MOVEMENT, 8) + bits
                && Known() == NewKnown(old(AsViewer()), roster, old(Known()), nearby)
                && (forall i :: 0 <= i < knownPlayerCount ==>
                      (knownPlayersSeen[i] <==> i < |Kept(roster, Tile(x, y), old(Known()))|))
              else
                && offset == -1 && knownPlayerCount == old(knownPlayerCount)
                && Passed(roster, Tile(x, y), old(Known()), 8 * tmpbuf.Length - HeadBits(old(AsViewer())), Known())
      ensures forall z :: Cleans(Slots(old(table.zones), z), Slots(table.zones, z), roster)
    {
      hide Head, ListBits, BitsOf, Kept, NearbyPlayers, NewKnown, PositionBits, PacketBits, Cleans, Passed, Slots, HeadBits;
      ghost var known := Known();
      ghost var v := AsViewer();
      var nearby := table.GetNearbyPlayers(Tile(x, y), roster, MAX_KNOWN_PLAYERS);
      var bitpos := WriteHead();
      var ok, newKnown;
      PacketParts(v, roster, known, nearby);
      ok, bitpos, newKnown := WriteLists(roster, nearby, bitpos);
      if !ok {
        return -1;
      }
      CopyKnown(newKnown);
      offset := (bitpos + 7) / 8;
    }

    /** memcpy of the new list over the old one. */
    method CopyKnown(newKnown: seq<int>)
      requires Shaped() && |newKnown| <= MAX_KNOWN_PLAYERS
      modifies this`knownPlayerCount, knownPlayers
      ensures Shaped() && knownPlayerCount == |newKnown| && Known() == newKnown
    {
      for i := 0 to |newKnown|
        invariant knownPlayers[..i] == newKnown[..i]
        invariant knownPlayerCount == old(knownPlayerCount)
      {
        knownPlayers[i] := newKnown[i];
      }
      knownPlayerCount := |newKnown|;
    }
  }
}
