/** The bits of a player movement packet, and how a client reads them. */
module MoveCodec {
  import opened Bits
  import opened Collision
  import opened Walk
  import opened Zones

  const MAX_KNOWN_PLAYERS := 255

  // ---- what a packet says ----------------------------------------------------------------------

  /** What one tick did to a player the client knows. */
  datatype Update = Still | StepTo(dir: nat) | TurnTo(dir: nat) | Drop

  /** The player the packet is for; protocol revisions below 149 send its position in fewer bits. */
  datatype Viewer = Viewer(id: nat, at: Tile, dir: nat, narrow: bool)

  /** within_update_radius */
  predicate WithinUpdateRadius(here: Tile, there: Tile, range: int) {
    var origin := FindZone(here);
    var zone := FindZone(there);
    && origin.Some? && zone.Some? && origin.value.plane == zone.value.plane
    && Abs(zone.value.zx - origin.value.zx) <= range && Abs(zone.value.zy - origin.value.zy) <= range
  }

  function UpdateFor(roster: Roster, here: Tile, id: int): Update {
    if id < 0 || id !in roster then Drop
    else
      var p := roster[id];
      if p.leaving || !WithinUpdateRadius(here, p.at, 2) || p.hidden || p.teleported then Drop
      else if p.moved then StepTo(p.dir)
      else if p.dir != p.prevDir then TurnTo(p.dir)
      else Still
  }

  /** The prefix code of the updates. */
  function UpdateBits(u: Update): seq<bool> {
    match u
    case Still => [false]
    case StepTo(dir) => [true] + [false] + BitsOf(dir, 3)
    case TurnTo(dir) => [true] + [true] + BitsOf(dir, 4)
    case Drop => BitsOf(15, 4)
  }

  /** The bits of a list of known ids; a blank entry takes none. */
  function UpdateStream(roster: Roster, here: Tile, known: seq<int>): seq<bool> {
    if |known| == 0 then []
    else
      var last := known[|known| - 1];
      UpdateStream(roster, here, known[..|known| - 1])
      + (if last == -1 then [] else UpdateBits(UpdateFor(roster, here, last)))
  }

  /** The known ids that stay known. */
  function Kept(roster: Roster, here: Tile, known: seq<int>): (kept: seq<int>)
    ensures |kept| <= |known|
  {
    if |known| == 0 then []
    else
      var last := known[|known| - 1];
      Kept(roster, here, known[..|known| - 1])
      + (if last == -1 || UpdateFor(roster, here, last).Drop? then [] else [last])
  }

  /** Neither logging out nor hidden. */
  predicate Visible(roster: Roster, id: int) {
    id >= 0 && id in roster && !roster[id].leaving && !roster[id].hidden
  }

  /** A nearby player that gets no entry. */
  predicate Skipped(roster: Roster, self: nat, newKnown: seq<int>, id: nat) {
    id == self || !Visible(roster, id) || id in newKnown
  }

  /** The known list after the first n nearby players. */
  function Absorbed(roster: Roster, self: nat, kept: seq<int>, nearby: seq<nat>, n: nat): (known: seq<int>)
    requires n <= |nearby|
    ensures |kept| <= |known| <= |kept| + n && known[..|kept|] == kept
  {
    if n == 0 then kept
    else
      var before := Absorbed(roster, self, kept, nearby, n - 1);
      if Skipped(roster, self, before, nearby[n - 1]) then before else before + [nearby[n - 1]]
  }

  /** The entry of a player the client did not know: position relative to the viewer, and direction. */
  function EntryBits(roster: Roster, here: Tile, id: int): seq<bool> {
    if id < 0 || id !in roster then []
    else
      BitsOf(id, 11) + BitsOf(roster[id].at.x - here.x, 5) + BitsOf(roster[id].at.y - here.y, 5)
      + BitsOf(roster[id].dir, 4) + BitsOf(0, 1)
  }

  function EntryStream(roster: Roster, here: Tile, ids: seq<int>): seq<bool> {
    if |ids| == 0 then []
    else EntryStream(roster, here, ids[..|ids| - 1]) + EntryBits(roster, here, ids[|ids| - 1])
  }

  function PositionBits(v: Viewer): seq<bool> {
    if v.narrow then BitsOf(v.at.x, 10) + BitsOf(v.at.y, 12) else BitsOf(v.at.x, 11) + BitsOf(v.at.y, 13)
  }

  /** The known list after a packet. */
  function NewKnown(v: Viewer, roster: Roster, known: seq<int>, nearby: seq<nat>): seq<int> {
    var kept := Kept(roster, v.at, known);
    if |known| >= MAX_KNOWN_PLAYERS then kept else Absorbed(roster, v.id, kept, nearby, |nearby|)
  }

  /** The payload of a movement packet after its opcode, without the padding to whole bytes. */
  function PacketBits(v: Viewer, roster: Roster, known: seq<int>, nearby: seq<nat>): seq<bool> {
    PositionBits(v) + BitsOf(v.dir, 4) + BitsOf(|known|, 8)
    + UpdateStream(roster, v.at, known)
    + EntryStream(roster, v.at, NewKnown(v, roster, known, nearby)[|Kept(roster, v.at, known)|..])
  }

  // ---- how a client reads it ---------------------------------------------------------------------

  /** A player as the client sees it. */
  datatype Seen = Seen(id: nat, at: Tile, dir: nat)

  datatype Client = Client(at: Tile, dir: nat, others: seq<Seen>)

  /** Reads one update, and leaves the bits behind it. */
  function ParseUpdate(bits: seq<bool>): Option<(Update, seq<bool>)> {
    if |bits| < 1 then None
    else if !bits[0] then Some((Still, bits[1..]))
    else if |bits| < 2 then None
    else if !bits[1] then
      if |bits| < 5 then None else Some((StepTo(NatOf(bits[2..5])), bits[5..]))
    else if |bits| < 4 then None
    else if bits[2] && bits[3] then Some((Drop, bits[4..]))
    else if |bits| < 6 then None
    else Some((TurnTo(NatOf(bits[2..6])), bits[6..]))
  }

  function Updated(s: Seen, u: Update): seq<Seen> {
    match u
    case Still => [s]
    case StepTo(dir) => [s.(at := Tile(s.at.x + DirX(dir), s.at.y + DirY(dir)), dir := dir)]
    case TurnTo(dir) => [s.(dir := dir)]
    case Drop => []
  }

  function ReadUpdates(bits: seq<bool>, others: seq<Seen>): Option<(seq<Seen>, seq<bool>)>
    decreases |others|
  {
    if |others| == 0 then Some(([], bits))
    else
      var u := ParseUpdate(bits);
      if u.None? then None
      else
        var r := ReadUpdates(u.value.1, others[1..]);
        if r.None? then None else Some((Updated(others[0], u.value.0) + r.value.0, r.value.1))
  }

  /** Reads entries as long as there are bits for one. */
  function ReadEntries(bits: seq<bool>, here: Tile): seq<Seen>
    decreases |bits|
  {
    if |bits| < 26 then []
    else
      [Seen(NatOf(bits[..11]),
            Tile(here.x + SignedOf(bits[11..16]), here.y + SignedOf(bits[16..21])),
            NatOf(bits[21..25]))]
      + ReadEntries(bits[26..], here)
  }

  /** Reads a movement payload: own position, the updates of the known players, then the new players. */
  function Read(narrow: bool, bits: seq<bool>, c: Client): Option<Client> {
    var w := if narrow then 10 else 11;
    var h := if narrow then 12 else 13;
    if |bits| < w + h + 12 then None
    else
      var here := Tile(NatOf(bits[..w]), NatOf(bits[w..w + h]));
      var dir := NatOf(bits[w + h..w + h + 4]);
      var count := NatOf(bits[w + h + 4..w + h + 12]);
      if count > |c.others| then None
      else
        var r := ReadUpdates(bits[w + h + 12..], c.others[..count]);
        if r.None? then None
        else Some(Client(here, dir, r.value.0 + ReadEntries(r.value.1, here)))
  }

  // ---- the code is read back ---------------------------------------------------------------------

  lemma SliceAt<T>(a: seq<T>, b: seq<T>, c: seq<T>)
    ensures (a + b + c)[|a|..|a| + |b|] == b && (a + b + c)[|a| + |b|..] == c && (a + b + c)[..|a|] == a
  {
  }

  lemma FourBits(d: nat)
    requires d < 16
    ensures BitsOf(d, 4) == [d / 8 % 2 == 1, d / 4 % 2 == 1, d / 2 % 2 == 1, d % 2 == 1]
  {
  }

  lemma StepRoundTrip(dir: nat, rest: seq<bool>)
    requires dir <= NORTHEAST
    ensures ParseUpdate(UpdateBits(StepTo(dir)) + rest) == Some((StepTo(dir), rest))
  {
    hide BitsOf, NatOf;
    var bits := UpdateBits(StepTo(dir)) + rest;
    SliceAt([true] + [false], BitsOf(dir, 3), rest);
    assert bits == [true] + [false] + BitsOf(dir, 3) + rest;
    assert Pow2(3) == 8;
    NatFieldRoundTrip(dir, 3);
  }

  lemma TurnRoundTrip(dir: nat, rest: seq<bool>)
    requires dir <= COMBAT_RIGHT
    ensures ParseUpdate(UpdateBits(TurnTo(dir)) + rest) == Some((TurnTo(dir), rest))
  {
    hide BitsOf, NatOf;
    var bits := UpdateBits(TurnTo(dir)) + rest;
    SliceAt([true] + [true], BitsOf(dir, 4), rest);
    assert bits == [true] + [true] + BitsOf(dir, 4) + rest;
    assert Pow2(4) == 16;
    NatFieldRoundTrip(dir, 4);
    FourBits(dir);
    assert bits[2] == BitsOf(dir, 4)[0] && bits[3] == BitsOf(dir, 4)[1];
  }

  lemma StillRoundTrip(rest: seq<bool>)
    ensures ParseUpdate(UpdateBits(Still) + rest) == Some((Still, rest))
  {
    assert (UpdateBits(Still) + rest)[1..] == rest;
  }

  lemma DropRoundTrip(rest: seq<bool>)
    ensures ParseUpdate(UpdateBits(Drop) + rest) == Some((Drop, rest))
  {
    hide BitsOf, NatOf;
    FourBits(15);
    assert (UpdateBits(Drop) + rest)[4..] == rest;
  }

  /** An update is read back, and nothing behind it is consumed: no code word is a prefix of another. */
  lemma UpdateRoundTrip(u: Update, rest: seq<bool>)
    requires u.StepTo? ==> u.dir <= NORTHEAST
    requires u.TurnTo? ==> u.dir <= COMBAT_RIGHT
    ensures ParseUpdate(UpdateBits(u) + rest) == Some((u, rest))
  {
    hide UpdateBits, ParseUpdate;
    match u
    case Still => StillRoundTrip(rest);
    case StepTo(dir) => StepRoundTrip(dir, rest);
    case TurnTo(dir) => TurnRoundTrip(dir, rest);
    case Drop => DropRoundTrip(rest);
  }

  lemma {:induction false} UpdateStreamFront(roster: Roster, here: Tile, known: seq<int>)
    requires |known| > 0 && -1 !in known
    ensures UpdateStream(roster, here, known)
         == UpdateBits(UpdateFor(roster, here, known[0])) + UpdateStream(roster, here, known[1..])
    decreases |known|
  {
    hide UpdateBits, UpdateFor;
    if |known| > 1 {
      var before := known[..|known| - 1];
      UpdateStreamFront(roster, here, before);
      assert before[1..] == known[1..][..|known| - 2];
    } else {
      assert known[..0] == [] && known[1..] == [];
    }
  }

  lemma {:induction false} KeptFront(roster: Roster, here: Tile, known: seq<int>)
    requires |known| > 0 && -1 !in known
    ensures Kept(roster, here, known)
         == (if UpdateFor(roster, here, known[0]).Drop? then [] else [known[0]]) + Kept(roster, here, known[1..])
    decreases |known|
  {
    hide UpdateFor;
    if |known| > 1 {
      var before := known[..|known| - 1];
      KeptFront(roster, here, before);
      assert before[1..] == known[1..][..|known| - 2];
    } else {
      assert known[..0] == [] && known[1..] == [];
    }
  }

  lemma {:induction false} EntryStreamFront(roster: Roster, here: Tile, ids: seq<int>)
    requires |ids| > 0
    ensures EntryStream(roster, here, ids) == EntryBits(roster, here, ids[0]) + EntryStream(roster, here, ids[1..])
    decreases |ids|
  {
    hide EntryBits;
    if |ids| > 1 {
      var before := ids[..|ids| - 1];
      EntryStreamFront(roster, here, before);
      assert before[1..] == ids[1..][..|ids| - 2];
    } else {
      assert ids[..0] == [] && ids[1..] == [];
    }
  }

  /** The fields of an entry fit: the relative position is in the signed 5-bit range. */
  predicate EntryFits(roster: Roster, here: Tile, id: int) {
    && 0 <= id < 2048 && id in roster && roster[id].dir <= COMBAT_RIGHT
    && -16 <= roster[id].at.x - here.x <= 15 && -16 <= roster[id].at.y - here.y <= 15
  }

  lemma EntryRoundTrip(roster: Roster, here: Tile, id: int, rest: seq<bool>)
    requires EntryFits(roster, here, id)
    ensures ReadEntries(EntryBits(roster, here, id) + rest, here)
         == [SeenOf(roster, id)] + ReadEntries(rest, here)
  {
    hide BitsOf, NatOf, SignedOf;
    var p := roster[id];
    var a := BitsOf(id, 11);
    var b := BitsOf(p.at.x - here.x, 5);
    var c := BitsOf(p.at.y - here.y, 5);
    var d := BitsOf(p.dir, 4);
    var e := BitsOf(0, 1);
    var bits := EntryBits(roster, here, id) + rest;
    assert bits[..11] == a && bits[11..16] == b && bits[16..21] == c && bits[21..25] == d && bits[26..] == rest;
    assert Pow2(4) == 16;
    Pow2Eight();
    assert Pow2(11) == 8 * Pow2(8) && Pow2(5) == 2 * Pow2(4);
    NatFieldRoundTrip(id, 11);
    SignedFieldRoundTrip(p.at.x - here.x, 5);
    SignedFieldRoundTrip(p.at.y - here.y, 5);
    NatFieldRoundTrip(p.dir, 4);
  }

  /** The last bit of an entry is spare. */
  lemma EntrySpareBit(roster: Roster, here: Tile, id: int)
    requires id >= 0 && id in roster
    ensures |EntryBits(roster, here, id)| == 26 && !EntryBits(roster, here, id)[25]
  {
    assert BitsOf(0, 1) == [false];
  }

  function SeenOf(roster: Roster, id: int): Seen
    requires id >= 0 && id in roster
  {
    Seen(id, roster[id].at, roster[id].dir)
  }

  /** The players as they are, in the order of the ids. */
  function TrueSeen(roster: Roster, ids: seq<int>): (s: seq<Seen>)
    requires forall i :: 0 <= i < |ids| ==> ids[i] >= 0 && ids[i] in roster
    ensures |s| == |ids|
  {
    seq(|ids|, i requires 0 <= i < |ids| => SeenOf(roster, ids[i]))
  }

  /** New players are read back, and up to 25 bits of padding are not mistaken for one. */
  lemma {:induction false} EntriesRoundTrip(roster: Roster, here: Tile, ids: seq<int>, pad: seq<bool>)
    requires forall i :: 0 <= i < |ids| ==> ids[i] >= 0 && ids[i] in roster && EntryFits(roster, here, ids[i])
    requires |pad| < 26
    ensures ReadEntries(EntryStream(roster, here, ids) + pad, here) == TrueSeen(roster, ids)
    decreases |ids|
  {
    hide EntryBits;
    if |ids| > 0 {
      EntryStreamFront(roster, here, ids);
      EntryRoundTrip(roster, here, ids[0], EntryStream(roster, here, ids[1..]) + pad);
      assert EntryStream(roster, here, ids) + pad
          == EntryBits(roster, here, ids[0]) + (EntryStream(roster, here, ids[1..]) + pad);
      EntriesRoundTrip(roster, here, ids[1..], pad);
      assert TrueSeen(roster, ids) == [SeenOf(roster, ids[0])] + TrueSeen(roster, ids[1..]);
    }
  }
}
