# RSC Sundae, modelled in Dafny

RSC Sundae is a single-threaded game server. Once per tick it lets every player walk, sends every client the changes
to the players around it, and clears the flags of the tick. This project models the parts of the server whose
correctness is not visible in any one function, and proves what they promise.

Wherever the server changes state in place, the model does too: a class with the fields of the C structure, arrays
for the fixed buffers, methods with the loops of the source. Each method is proved against a function of its inputs,
and the laws are proved about those functions, over every input or every run.

| module | what it models |
|---|---|
| `Bits` | `buf_putbits` on a byte buffer, and the stream of bits such a buffer holds |
| `Collision`, `Walk`, `WalkProofs`, `Following` | choosing and testing a step, the walk queue, following, and the safety of every walk |
| `Zones`, `Nearby`, `NearbyProofs` | the index of players by map chunk, and the query for nearby players against a scan of all |
| `MoveCodec`, `Outgoing`, `MoveMirror`, `Wire`, `Server`, `Tracking` | the movement packet, its decoder, and the client that mirrors the server over whole runs |
| `Framing`, `Isaac`, `Opcodes`, `Session` | packet framing and both buffers, the ISAAC generator, mapped and masked opcodes |
| `Shop`, `Inventory`, `InventoryProofs`, `Bank` | prices without arbitrage, what is worn, conservation of items |
| `GroundItems` | the sweep of stale ground items and its logarithmic bound |
| `Chat`, `Names` | the nibble code of chat messages and base-37 names |
| `Arrays`, `Chars`, `Limits` | what several of these share |

## What the theorems say about the code

* **The client shows the truth, exactly as long as it misses nothing.** `Server.ServerMirrors` goes over every history
  of a client: whatever the server did before it logged in, and then logins, logouts, walks along arbitrary queues,
  turns, teleports, hiding and zone lookups, in any order and number between packets. The server replaces its list of
  known players before it knows whether the packet finds room in the send buffer. The client has that list after every
  packet, each player once, at its true place and facing its true direction, if and only if every packet that finds no
  room changes nothing. A lost packet that makes the list longer ends the session (`MoveMirror.LostEntryUnreadable`,
  with an instance in `Server.LossInstance`). `Server.ClientSees`: everybody shown is visible and near, and everybody
  visible in sight is shown unless a limit cuts somebody off, which takes more than 128 players
  (`Server.NoLimitForFew`). `Tracking.ListedIff` and `Tracking.HistoryTells` say exactly who stays on the list and what
  the packet tells of each known player.
* **Down to the bytes.** `Server.StreamMirrors` follows the packets through opcode mapping, masking, framing and a send
  buffer that empties only when the socket has taken everything, in a stream with whatever other packets. With masked
  opcodes every write has to find room, since one that does not has used up a key: the i-th packet is opened rightly if
  and only if the key moved on by the writes lost before it is the i-th key (`Session.RecoveredIff`).
* **Walks respect walls.** A diagonal step is legal exactly when both corner tiles are open and one of the two L-shaped
  routes crosses no wall, so a mob stays among the tiles connected to its start (`WalkProofs.RunSafe`). The one
  exception is real: a mob on the northern edge of a plane above 0 that is sent north walks off it, since only upper
  bounds are checked. `WalkProofs.TickSafeIff` gives the exact condition and `WalkProofs.OffPlaneWalk` an instance.
* **Followers arrive.** Whoever follows somebody standing still, with nothing in the way, ends next to it
  (`Following.FollowerArrives`).
* **Where a law fails, the exact condition is proved.** A shop sold to and bought from at once never pays exactly when
  382 times the item's value fits 32 bits (`Shop.NoGainIff`). Removing loose items leaves one behind exactly when all
  held are asked for and slots 0 and 1 both hold one (`InventoryProofs.RemovedLoose`), and such a deposit duplicates
  an item (`Bank.DepositConserves`). A login keeps the zone index exact exactly when no slot of an earlier player with
  the same id is left behind and the player stays in the zone of its stored tile, which a first login need not
  (`Zones.LoginOkIff`). A packet that starts too far back in the receive buffer never arrives (`Framing.NeverArrives`).
  A name comes back exactly when its code does not overflow 64 bits (`Names.NameRoundTripIff`). Clearing the inventory
  leaves the bonuses of what was worn (`InventoryProofs.ClearedIff`). Each of these comes with an instance that a
  server can meet.
* **Row 944.** The wall test puts the row y = 944 on plane 1, the zone lookup puts it on plane 0 and
  finds no zone there. The model follows both; `Zones.FindZoneMeaning` says exactly which tiles have a zone.

## Conventions

x + 1 is west and y - 1 is north. Coordinates are unbounded integers; where the C code narrows, divides, shifts or
wraps, the model says so explicitly. The grid of wall bits is a total function, because the C code reads next to the
rows it means in a few cases: whatever such a read yields, the theorems hold.

## Model

| member | source | states |
|---|---|---|
| Bits.PutBits | src/buffer.c:205-238 | A field is stored if and only if it fits; then exactly the bits of the field change, most significant first, in two's complement. If it does not fit, exactly the bits up to the last byte boundary before the end are stored. |
| Bits.FitsIff | src/buffer.c:209-227 | A field has room if and only if its bits do; an empty one needs a byte to stand in. |
| Bits.SpilledUpToLast | src/buffer.c:214-227 | Of a field that does not fit nothing reaches the last byte of the buffer, and all of it up to there is stored. |
| Bits.StoreByteField | src/buffer.c:215-236 | Clearing and setting a part of one byte changes that byte to the byte field and no other. |
| Bits.ByteFieldBit | src/buffer.c:6-17 | Masking with the table of ones replaces exactly the bits of the field and keeps the rest of the byte. |
| Bits.StreamStep | src/buffer.c:215-236 | Storing the next part of a field extends the written bits of the stream by that part, on whatever byte it falls. |
| Bits.NatFieldRoundTrip | src/buffer.c:205-238 | An unsigned value below 2^n reads back from its n bits. |
| Bits.SignedFieldRoundTrip | src/buffer.c:205-238 | A value reads back from n bits by two's complement if and only if it is in the signed n-bit range. |
| Bits.FieldsReadBack | src/buffer.c:205-238 | Of any row of consecutive fields each reads back as it was written. |
| Bits.OutsideUnchanged | src/buffer.c:205-238 | A row of fields changes no bit in front of or behind it. |
| Collision.NextStep | src/mob.c:697-749 | The chosen tile is one king move closer to the target, and the direction is that of the move; on the target neither changes. |
| Collision.DirectionBlockedMeaning | src/mob.c:572-693 | For all walls and all eight directions, the coded tests say: the edge has no wall, or, diagonally, both corner tiles are open and one of the two L-shaped routes crosses no wall. |
| Collision.BitsOfTile | src/mob.c:532-540 | The bits in numbers: 16, or 32 for sight, blocks a tile; 1 or 4 is its wall to the south, 2 or 8 to the west, seen from either side. |
| Collision.MapSize | src/mob.c:524-544 | The map is four planes of 450 by 750 tiles, 944 rows apart. |
| Collision.CollidesMeaning | src/mob.c:518-695 | A chosen step collides if and only if the map bounds, the walls or the occupants forbid it. |
| Collision.StaticLegalSymmetric | src/mob.c:572-693 | Between two unblocked tiles a step is legal if and only if the step back is. |
| Collision.StaticLegalMonotone | src/mob.c:518-695 | Removing wall and block bits never makes a legal step illegal. |
| Walk.Mob.ProcessWalkQueue | src/mob.c:400-516 | The new state of the mob, queue included, and whoever was caught, are those of one tick as a function of the old state and the world. |
| Walk.Mob.StepAlongQueue | src/mob.c:453-515 | The part behind the settled waypoints: stop, collide, stop short of an occupied tile, or step. |
| Walk.Mob.GiveUp | src/mob.c:465-492 | A collision ends the walk; a fighter loses its fight and so does whoever it had caught. |
| Walk.Mob.TakeStep | src/mob.c:509-515 | A step sets position, direction and the moved flag together, and nothing else but the idle timer. |
| Walk.Mob.ResetCombat | src/mob.c:89-102 | A reset forgets targets and followed mobs, turns a combat direction north, and leaves place and queue alone. |
| Walk.Mob.FaceTile | src/mob.c:27-46 | A mob that has not moved this tick turns to the tile, one that has does not. |
| Walk.Mob.CheckReachable | src/mob.c:751-772 | The loop answers whether the straight walk to the target meets no collision. |
| WalkProofs.TickMotion | src/mob.c:400-516 | After any tick the queue is within its bounds of 16, and the mob has either not moved or made one king move in the direction it now has, with moved set. |
| WalkProofs.TickStep | src/mob.c:461-515 | A tick that moves the mob made the step chosen towards its goal, and the walls allowed it. |
| WalkProofs.StepKeepsMap | src/mob.c:518-571 | A legal step stays on the map and its plane if and only if it does not go north off the edge of the plane. |
| WalkProofs.StaticLegalConnected | src/mob.c:572-693 | A legal step, diagonal or not, ends on a tile connected by wall-free cardinal steps onto unblocked tiles. |
| WalkProofs.TickSafeIff | src/mob.c:400-516 | A tick that moves a mob keeps it among the tiles connected to its own if and only if it does not send it north off the edge of its plane. |
| WalkProofs.OffPlaneWalk | src/mob.c:518-571 | An instance of the exception: on an open map a mob at (100, 944) sent north leaves the map. |
| WalkProofs.RunSafe | src/mob.c:400-516 | Over every run of ticks, whatever queues, follow targets, fights and occupants they find, a mob stays on the map and among the tiles connected to its start. |
| WalkProofs.TickProgress | src/mob.c:453-515 | A tick without following clears the queue, reaches its waypoint, or gets one king move closer to it. |
| WalkProofs.PendingDecreases | src/mob.c:453-515 | Moves and waypoints pending strictly decrease with every such tick until none are left. |
| WalkProofs.QueueEmpties | src/mob.c:400-516 | Every queue is empty after as many ticks as there are moves and waypoints pending, in whatever worlds. |
| WalkProofs.ReachablePredictsWalk | src/mob.c:751-772 | In an unchanging world a target is reachable if and only if the walk is on it after as many ticks as there are king moves. |
| WalkProofs.ReachableMonotone | src/mob.c:751-772 | Clearing walls, or walking to act, never makes a reachable target unreachable. |
| WalkProofs.ReachesIff | src/mob.c:751-772 | A tile is reached, or seen, if and only if every king move of the straight walk passes the walls, and, unless it is a look, the occupants. |
| Following.LockedStays | src/mob.c:408-415 | Locked in a fight, the queue is dropped and nothing else happens. |
| Following.FollowerWaits | src/mob.c:437-440 | Less than two tiles from the followed mob, in x and in y, nothing happens; a followed player goes before a followed npc. |
| Following.FollowerApproaches | src/mob.c:441-515 | Three or more tiles away, the followed tile becomes the only waypoint and the tick ends one king move closer to it, or collides and leaves an empty queue. |
| Following.FollowerWalksOn | src/mob.c:437-515 | Two tiles away the tick is that of a mob that follows nobody. |
| Following.GoneForgotten | src/mob.c:417-435 | Somebody who is gone is forgotten, and the tick is that of a mob that follows nobody. |
| Following.IdleTick | src/mob.c:453-459 | At the end of the queue nothing moves. |
| Following.BlockedTick | src/mob.c:465-492 | A collision drops the queue and ends a fight; exactly the target is caught, a player before an npc, if still there. |
| Following.ResetMeaning | src/mob.c:89-102 | After a reset nobody is fought or followed, and a fighting direction has turned north. |
| Following.FreeTick | src/mob.c:494-515 | Without a collision the step is taken and a waypoint reached is crossed off, unless a player who does not walk to act would end on a last waypoint that somebody stands on: then it stops and turns to it. |
| Following.FollowerArrives | src/mob.c:437-515 | Whoever follows somebody standing still, with nothing in the way, is next to it after as many ticks as there are king moves less one, and stays there. |
| Following.OpenClear | src/mob.c:518-695 | On an open map, with nobody but the one followed, nothing is in the way. |
| Zones.FindZoneMeaning | src/zone.c:31-57 | A tile has a zone if and only if it is on the map and not in row 944, and the zone is the 8 by 8 chunk it lies in. |
| Zones.GetZoneMeaning | src/zone.c:59-76 | Found by number are 56 by 93 zones on each of four planes, those with a zero coordinate left out. |
| Zones.SlotsAddIds | src/zone.c:438-470 | Adding an id, into a free slot or by doubling the array, adds it to the set the slots stand for and holds no id twice. |
| Zones.SlotsRemoveIds | src/zone.c:506-515 | Removing an id removes exactly it from the set. |
| Zones.SlotsAddPlace | src/zone.c:438-470 | The id goes into the first free slot, or behind the last slot of an array that doubles, from 8 on; all other slots stay. |
| Zones.SlotsRemovePlace | src/zone.c:506-515 | Exactly the first slot that holds the id is freed. |
| Zones.RelocateOk | src/player.c:2398-2417 | A step or a teleport keeps every player in exactly one slot, that of the zone of its tile, and in none off the map. |
| Zones.LoginOkIff | src/protocol/incoming.c:218-245 | A login keeps the index exact if and only if no stale slot holds the id, since a logout frees none, and the player is left in the zone it was entered in, since a first login puts it on the start tile without an index update; where the stored tile has no zone, if and only if the slots that hold the id are those of its new zone. |
| Zones.StaleInstance | src/server.c:361-369 | A player logs in and out, and the next one with its id is in two zones. |
| Zones.StartTileInstance | src/protocol/incoming.c:242-245 | With a start tile far from the stored (120, 648), the first login on an empty server leaves the index wrong. |
| Zones.CleanOk | src/zone.c:565-567 | Freeing slots of players that are gone keeps the index exact. |
| Zones.HappenOk | src/player.c:2398-2480 | Every login with a fresh id that stays in its zone, logout, move and lookup keeps the index exact. |
| Zones.RunIndexOk | src/player.c:2398-2480 | The index stays exact over every run of these events. |
| Zones.EmptyIndexOk | src/server.c:312-475 | The server starts with an exact index. |
| Nearby.ZoneTable.AddPlayer | src/zone.c:438-470 | The slots of the zone become those of the insertion function, all others stay. |
| Nearby.ZoneTable.RemovePlayer | src/zone.c:506-515 | The first slot with the id is freed, all others stay. |
| Nearby.ZoneTable.PlayerMoved | src/player.c:2398-2417 | A move takes the player out of its old zone and puts it into the new one, if they differ. |
| Nearby.ZoneTable.FindPlayers | src/zone.c:555-577 | The logged-in players of the zone in slot order, up to the maximum; slots of players that are gone are freed and no others. |
| Nearby.ZoneTable.VisitZone | src/mob.c:208-231 | One neighbouring zone adds its players in range to what was gathered. |
| Nearby.AppendInRange | src/mob.c:223-229 | Copying stops at the maximum and keeps those less than 16 tiles away. |
| Nearby.ZoneTable.GetNearbyPlayers | src/mob.c:190-234 | The list is that of the query function, and lookups only free slots of players that are gone. |
| NearbyProofs.FetchSound | src/zone.c:555-577 | With an exact index a zone yields only its own logged-in players, each once, and all of them if they are at most 128. |
| Nearby.EligibleOrder | src/zone.c:555-577 | The players of a zone come in the order of their slots. |
| NearbyProofs.CloseZones | src/zone.c:31-57 | Tiles at most 15 apart lie at most two zones apart, so the 5 by 5 zones suffice. |
| NearbyProofs.GatheredSound | src/mob.c:190-234 | Whatever limits cut off, everybody gathered is in sight and is gathered once. |
| NearbyProofs.NearbySound | src/mob.c:190-234 | The query returns only players in sight, each once. |
| NearbyProofs.NearbyExact | src/mob.c:190-234 | When no limit cuts anybody off, the query returns exactly the players that a scan finds on the same plane within 15 tiles in x and y, those of other zones with a zero coordinate excepted. |
| Outgoing.AppendBits | src/protocol/outgoing.c:393-399 | A field appended at the bit position extends the written bits by the field, if and only if there is room. |
| Outgoing.PutUpdate | src/protocol/outgoing.c:409-461 | The branches write exactly the code word of the update: drop, step, turn or still. |
| Outgoing.PutEntry | src/protocol/outgoing.c:488-517 | The five fields of a new player are written in order, if and only if there is room for all 26 bits. |
| Outgoing.Player.WriteHead | src/protocol/outgoing.c:370-399 | Opcode, own position in the widths of the protocol revision, direction and count. |
| Outgoing.Player.WriteOne | src/protocol/outgoing.c:404-466 | One known player gets its update, and is blanked or put on the new list and flagged as seen; if there is no room nothing of the list changes. |
| Outgoing.Player.WriteKnown | src/protocol/outgoing.c:401-467 | Every known player gets its update, in order; those not dropped go onto the new list. Those dropped are blanked, up to the first update that does not fit. |
| Outgoing.Player.OnNewList | src/protocol/outgoing.c:479-485 | The search loop answers membership in the new list. |
| Outgoing.Player.ConsiderNew | src/protocol/outgoing.c:474-520 | A nearby player is skipped or gets an entry and a place on the new list, flagged as not yet seen. |
| Outgoing.Player.WriteNew | src/protocol/outgoing.c:469-521 | All nearby players that are to be added are, in order, unless the known list was full. |
| Outgoing.Player.CopyKnown | src/protocol/outgoing.c:523-525 | The new list replaces the old one. |
| Outgoing.Player.WriteLists | src/protocol/outgoing.c:401-521 | Both passes: the bits behind the head, and the new list. |
| Outgoing.Player.BuildMovement | src/protocol/outgoing.c:357-527 | The buffer holds exactly the bits of the packet for the old list and the players nearby, and the list becomes the new one; or, when the bits do not fit, the list keeps its length and has those blanked whose drop was written. |
| MoveCodec.UpdateRoundTrip | src/protocol/outgoing.c:409-461 | Every update reads back and leaves what follows untouched: no code word is the beginning of another, since no direction exceeds 9. |
| MoveCodec.EntryRoundTrip | src/protocol/outgoing.c:488-517 | An entry whose offsets fit 5 signed bits reads back as the player's id, true tile and direction. |
| MoveCodec.EntrySpareBit | src/protocol/outgoing.c:513-516 | The last of the 26 bits of an entry is 0. |
| MoveCodec.EntriesRoundTrip | src/protocol/outgoing.c:469-521 | All entries read back, and the padding of the last byte is not taken for another. |
| MoveMirror.ActsTick | src/server.c:440-475 | Whatever is done to a player after its flags were cleared leaves the flags and the place such that an update describes the change. |
| MoveMirror.WalkTicks | src/player.c:2471-2480 | So does walking the queue. |
| MoveMirror.UpdatesRoundTrip | src/protocol/outgoing.c:401-467 | Reading the updates turns the true picture of the last tick into the true picture of this one, for the players that stay known. |
| MoveMirror.HeadRoundTrip | src/protocol/outgoing.c:370-399 | Direction and count read back, and the own position if and only if it fits its widths; a count above what the client has makes the packet unreadable. |
| MoveMirror.InSightFits | src/mob.c:223-229 | Everybody in sight has offsets that fit 5 signed bits. |
| MoveMirror.AddedFits | src/protocol/outgoing.c:469-521 | The new list is the kept players followed by new ones that fit an entry, nobody twice. |
| MoveMirror.PacketMirrors | src/protocol/outgoing.c:357-530 | One packet turns a mirror of the last tick into a mirror of this one. |
| MoveMirror.SightIsKnown | src/protocol/outgoing.c:469-521 | With room to spare and no crowd everybody visible in sight is on the new list. |
| MoveMirror.KnownIsNear | src/protocol/outgoing.c:401-467 | Everybody on the new list is visible and within the update radius. |
| Tracking.KeptIff | src/protocol/outgoing.c:401-467 | A known player stays known if and only if it is connected, not logging out, not hidden, not teleported, and its zone and the viewer's are on one plane and at most two apart. |
| Tracking.KeptOrder | src/protocol/outgoing.c:463-466 | Those who stay keep their order. |
| Tracking.UpdatesTell | src/protocol/outgoing.c:401-461 | At the place of every known player the reader finds a step in its direction if and only if it stays and has moved, a turn if and only if it stays and has only turned, nothing if and only if it stays unchanged, and else a drop. |
| Tracking.PacketTells | src/protocol/outgoing.c:370-461 | In a whole packet these updates stand behind 34 bits, or 36. |
| Tracking.NewKnownIff | src/protocol/outgoing.c:401-525 | Known afterwards is exactly who stays, and, while the list was not full, who is nearby, visible, and not the viewer. |
| Tracking.AbsorbedOrder | src/protocol/outgoing.c:469-521 | New players are listed in the order in which they were found nearby. |
| Tracking.ListedIff | src/protocol/outgoing.c:357-530 | The same in every history; who stays gets no entry, and who is new gets one. |
| Tracking.ListedInSight | src/protocol/outgoing.c:357-530 | While no limit cuts anybody off, known afterwards is exactly who stays and who is visible in sight. |
| Tracking.HistoryTells | src/protocol/outgoing.c:357-530 | At every packet of every history the reader finds what each known player did. |
| MoveMirror.LossMirrorsIff | src/protocol/outgoing.c:523-529 | A client that does not get a packet still mirrors the server if and only if the packet keeps the list and nobody on it has stepped, turned or come back elsewhere. |
| MoveMirror.MirrorStep | src/protocol/outgoing.c:523-529 | One packet more keeps the mirror if and only if it is sent or changes nothing. |
| MoveMirror.RunMirrors | src/protocol/outgoing.c:357-530 | Over every run in which no packet that changes something is lost, the client can read each packet sent, and has the server's list: same players, same order, none twice, true places and directions. |
| MoveMirror.MirrorsIff | src/protocol/outgoing.c:357-530 | The client mirrors the server after every packet of a run if and only if every lost one changes nothing. |
| MoveMirror.OwnPlace | src/protocol/outgoing.c:370-399 | After every packet it gets the client knows its own direction, and its own place if and only if that fits its field. |
| MoveMirror.TooManyUnreadable | src/protocol/outgoing.c:397-399 | A packet that counts more known players than the client has cannot be read. |
| MoveMirror.LostEntryUnreadable | src/protocol/outgoing.c:523-529 | When a packet that makes the list longer is lost, the next one sent ends the session for good. |
| Wire.HeadIsPayload | src/protocol/outgoing.c:527-529 | The bytes sent are those that hold the packet, with fewer than 8 stale bits behind it. |
| Wire.SendMovement | src/protocol/outgoing.c:357-530 | The packet goes to player_write_packet as exactly its bits, with the outcome that function has, and the list is replaced whether or not it found room; when the bits do not fit the construction buffer nothing is written. |
| Wire.PayloadOpcode | src/protocol/outgoing.c:370-373 | A movement payload starts with its opcode, and behind it is the packet. |
| Wire.TranslatedReads | src/protocol/outgoing.c:122-128 | Mapping the opcode leaves what is read behind it, and the client takes for movement packets exactly those. |
| Wire.PeerFollows | src/protocol/outgoing.c:114-166 | Without lost keys the client reads from a stream of arbitrary packets what it would read from its movement packets alone. |
| Wire.NoRoomInstance | src/protocol/outgoing.c:136-161 | In a buffer of 5000 bytes no movement packet finds room behind one of 4990; after the socket has taken everything the next one does. |
| Wire.PacketFits | src/protocol/outgoing.c:357-530 | A packet whose lists fit their arrays takes at most 1026 bytes, so the 5000 of the buffer suffice. |
| Wire.WireMirrors | src/protocol/outgoing.c:114-166 | Whoever deframes the stream of a connection, opens its packets with a generator of its own and reads those whose opcode says movement has the server's list, if with masked opcodes every write found room, or without every movement packet that did not changes nothing; what has arrived is a prefix, and all of it once nothing is left to send. |
| Server.DeedFair | src/server.c:345-410 | Every act, walk, login, logout and lookup keeps the index exact and the change since the last packet describable. |
| Server.FlushFair | src/server.c:440-475 | Clearing the flags after the packets starts the next tick afresh. |
| Server.PreludeFair | src/server.c:312-475 | Whatever the server did before a client logs in, with slots given to anybody, the index is exact. |
| Server.RunFair | src/server.c:312-475 | From there on, at every packet to the client the index is exact and every player has done what a tick allows. |
| Server.HistoryPlays | src/server.c:312-475 | Every history of a client meets all that the mirror relies on. |
| Server.RoomForFew | src/protocol/outgoing.c:362-365 | With at most 255 players connected the known list never outgrows its array. |
| Server.NoLimitForFew | src/protocol/outgoing.c:362-368 | With at most 128 players connected no limit on lists cuts anybody off. |
| Server.ServerMirrors | src/server.c:312-475 | In every history the client has the server's list after every packet, truly, if and only if every packet that finds no room changes nothing; and it knows its own place and direction after every packet it gets. |
| Server.ClientSees | src/server.c:312-475 | As long as it misses nothing: everybody shown is visible, near, where it is shown; everybody visible in sight is shown unless a limit cuts somebody off. |
| Server.StreamMirrors | src/server.c:395-441 | The same for whoever reads the bytes of the connection, with whatever other packets are in the stream. |
| Server.LossInstance | src/protocol/outgoing.c:523-529 | Two players log in next to each other, the first packet to one of them is lost, and the second cannot be read. |
| Framing.FrameRoundTrip | src/protocol/outgoing.c:136-165 | The frame of a payload is found again whatever follows it, and exactly its bytes are consumed. |
| Framing.FrameNumbers | src/protocol/outgoing.c:136-165 | Frames in numbers: the last byte first for short packets, a length in two bytes for long ones. |
| Framing.FrameAllRoundTrip | src/protocol/incoming.c:46-108 | Deframing inverts framing, for every sequence of payloads. |
| Framing.ZeroStops | src/protocol/incoming.c:60-70 | A length of zero, in either header, stops the reader for good. |
| Framing.DeframeGrows | src/protocol/incoming.c:52-101 | More input never changes the packets already found, nor what is left behind them. |
| Framing.Inbox.Receive | src/netio.c:79-98 | Received bytes are appended to what is pending, within the free end of the buffer. |
| Framing.Inbox.NextPacket | src/protocol/incoming.c:56-96 | The head of the loop finds the first whole packet, if there is one, and copies it out in order. |
| Framing.Inbox.ParseIncoming | src/protocol/incoming.c:46-108 | The packets dispatched are the first 32 at most of those pending, exactly what is behind them stays pending, and the buffer starts over only when nothing is. |
| Framing.ParsedUpTo32 | src/protocol/incoming.c:46-108 | One call dispatches the packets there are, up to 32; the bytes behind them stay where they are, unless there are none. |
| Framing.RunFaithful | src/protocol/incoming.c:46-108 | For every split of the stream into receives, and every interleaving of calls, what is dispatched is a prefix of the one-shot deframing, and is all of it exactly when nothing more can be found in what is pending. |
| Framing.NeverArrives | src/protocol/incoming.c:102-105 | Input is moved to the front only when none is pending: a frame that does not fit behind the offset at which it starts is never dispatched. |
| Framing.ArrivesWhenFits | src/protocol/incoming.c:46-108 | Any other packet is dispatched by the first call that finds its frame in the buffer, however its bytes came and whatever is behind them; and if the frame fits, its missing bytes can be received. |
| Framing.StuckBehind | src/protocol/incoming.c:102-105 | In a buffer of 5000 bytes a packet of 2600 that starts behind one of 2500 never arrives. |
| Framing.Outbox.PutHeader | src/protocol/outgoing.c:136-156 | The two bytes in front of the copied part are those of the frame, and what was queued is unchanged. |
| Framing.Outbox.CopyIn | src/protocol/outgoing.c:162-163 | Copying puts the payload behind what is there. |
| Framing.Outbox.Enqueue | src/protocol/outgoing.c:136-165 | All of the frame is queued, if and only if it fits behind what the buffer holds, bytes taken included; otherwise the queue is unchanged. |
| Framing.RoomIff | src/protocol/outgoing.c:136-161 | In 5000 bytes there is room up to the last of them, for one byte more than a short payload and two more than a long one. |
| Framing.Outbox.Send | src/netio.c:100-118 | The socket gets the next bytes in order, and the buffer starts over only when everything is taken. |
| Framing.DrainedRest | src/netio.c:100-118 | What is taken and what is left are what there was. |
| Isaac.Generator.DoIsaac | src/ext/isaac.c:16-54 | The state becomes that of the 256 passes. |
| Isaac.Generator.StepPass | src/ext/isaac.c:31-41 | One pass in place, with the reads of mm before and after the write of mm[i]. |
| Isaac.Generator.Next | src/ext/isaac.c:70-77 | The word and the state are those of one draw: a new block exactly when the last one is used up. |
| Isaac.Generator.Fill | src/ext/isaac.c:97-119 | A pass of the seeding fills mm from the words, even when those are mm itself. |
| Isaac.Generator.Init | src/ext/isaac.c:79-123 | The generator is that of the seed in the results. |
| Isaac.StirInjective | src/ext/isaac.c:32-38 | No stir of aa loses a bit. |
| Isaac.PassInjective | src/ext/isaac.c:29-49 | A pass can be undone: states that it makes equal were equal. |
| Isaac.ShuffleInjective | src/ext/isaac.c:16-54 | No two states shuffle to the same one. |
| Isaac.StirNumbers | src/ext/isaac.c:32-41 | The shifts in numbers. |
| Isaac.PassNumbers | src/ext/isaac.c:29-49 | One pass in numbers. |
| Isaac.MixNumbers | src/ext/isaac.c:58-68 | The golden ratio stirred four times, in numbers. |
| Isaac.DrawnMeaning | src/ext/isaac.c:70-77 | After n draws the generator is in block (n - 1) / 256, with 255 - (n - 1) % 256 words to go. |
| Isaac.NthDrawMeaning | src/ext/isaac.c:70-77 | The n-th draw is word 255 - n % 256 of block n / 256, so every word of every block is used once. |
| Isaac.EachWordOnce | src/ext/isaac.c:70-77 | Every word of every block is drawn, by one draw and no other. |
| Isaac.Seeded | src/ext/isaac.c:79-123 | Seeding leaves one block made and none of it drawn, after a single shuffle. |
| Isaac.MixInjective | src/ext/isaac.c:58-68 | Mixing loses nothing. |
| Isaac.LastWordsCount | src/ext/isaac.c:97-119 | Seeds that differ only in their last eight words leave none of the first 31 blocks of mm the same: the second pass carries every word to the front. |
| Isaac.SeedNumbers | src/ext/isaac.c:88-107 | The first block that seeding makes, in numbers. |
| Session.Connection.MaskOpcode | src/protocol/outgoing.c:122-134 | The opcode is mapped and masked in the payload with one key; an unmapped one leaves payload and generator alone. |
| Session.Connection.WritePacket | src/protocol/outgoing.c:114-166 | Queue, generator and result are those of the write function, whether or not there is room. |
| Session.KeysMustAgree | src/protocol/incoming.c:140-145 | An opcode is recovered if and only if both ends use the same key. |
| Session.MaskMeaning | src/protocol/outgoing.c:130-134 | The key is added to the opcode in a byte, and nothing else of the packet changes. |
| Session.KeyNumbers | src/protocol/outgoing.c:133-133 | The key of a word is its low byte. |
| Session.Receiver.ReadOpcode | src/protocol/incoming.c:140-145 | Opcode and generator are those of the unmasking function: only revision 203 unmasks and looks the opcode up. |
| Session.ClientUnderstood | src/protocol/incoming.c:140-145 | The server understands every opcode of every run of packets of a client with an equal generator. |
| Session.OtherRevisions | src/protocol/incoming.c:140-145 | Other revisions have their opcodes in clear; without a generator revision 203 only looks them up. |
| Opcodes.OpcodeRoundTrip | src/protocol/opcodes203.c:68-109 | A client of revision 203 recovers every opcode that the table maps: no two share a code. |
| Opcodes.Table203TellsMovement | src/protocol/opcodes203.c:68-109 | With this table movement packets can be sent and are told from all others. |
| Session.RecoveredIff | src/protocol/outgoing.c:114-166 | Over every run of writes, with or without room, and of partial sends, the peer finds every queued packet in the stream, and opens packet i rightly if and only if the key moved on by the mapped writes lost before it is key i. |
| Session.NoneLostIff | src/protocol/outgoing.c:136-161 | No mapped write is lost if and only if each finds room for its frame behind what the buffer holds. |
| Session.SessionRecovers | src/protocol/outgoing.c:114-166 | When every mapped write finds room the peer recovers all of them, in order, opcode included; an unmapped one is not sent and draws no key. |
| Session.ArrivedSoFar | src/netio.c:100-118 | What has arrived are the first packets of the stream, and all of them once nothing is left to send. |
| Session.LossInstance | src/protocol/outgoing.c:130-161 | In a buffer of 5000 bytes a packet of 200 is lost behind one of 4900, and the next packet sent is opened with the wrong key. |
| Shop.PriceModifier | src/shop.c:14-32 | The modifier is the difference between norm and stock where that is within 127, and stops there. |
| Shop.PricesWritten | src/shop.c:14-57 | Both prices written out: the percentage, moved by the shortage up to 127, at least 10, of the value, in 32 bits. |
| Shop.BuyBackCosts | src/shop.c:34-57 | With the buying percentage below the selling one, selling an item and buying it back never gains, at any stock. |
| Shop.TermsMustDiffer | src/shop.c:34-57 | With the percentages the other way round, it does for some item and stock. |
| Shop.WrapPays | src/shop.c:56-56 | For an item whose price can wrap in 32 bits there is a shop and a stock at which selling and buying back gains. |
| Shop.NoGainIff | src/shop.c:34-57 | Selling and buying back is never a gain, in any shop at any stock, if and only if 382 times the value fits 32 bits. |
| Shop.PawnPrice | src/shop.c:89-104 | An item the shop does not stock is paid for no better than a first stocked one. |
| Shop.ShopConfig.SellTo | src/shop.c:59-106 | Stock and coins paid are those of the sale function, and the shop is marked changed exactly if its stock changed. |
| Shop.SaleExact | src/shop.c:74-88 | An item stocked below 65535 grows by one in its first entry, and exactly its price is paid. |
| Shop.PawnExact | src/shop.c:89-105 | An item not stocked gets a new entry at the end, and exactly its percentage is paid. |
| Shop.SaleIff | src/shop.c:59-106 | A sale happens if and only if the item is held, and its entry has room or the shop takes it in pawn; else nothing changes and nothing is paid. |
| Shop.SaleGrowth | src/shop.c:74-88 | For an item the shop stocks the payout is exactly the growth of the potential. |
| Shop.ShopConfig.Remove | src/shop.c:108-145 | Stock and coins taken are those of the removal function: an item that is not restocked leaves with its last piece. |
| Shop.ShopConfig.BuyFrom | src/shop.c:147-176 | A purchase takes place only with room or an existing stack, and then as the removal function says. |
| Shop.PurchaseIff | src/shop.c:108-176 | A purchase happens if and only if there is a piece, the coins for it and room; else nothing changes and nothing is taken. |
| Shop.PurchaseExact | src/shop.c:113-143 | Exactly the price is taken and one piece leaves; the last piece of what is not restocked takes its entry along. |
| Shop.TradeBounded | src/shop.c:59-176 | No trade pays out more coins than the potential of the stock grows. |
| Shop.TradesBounded | src/shop.c:59-176 | Over every run of trades by any players, the coins paid out minus those taken in are at most the growth of the potential. |
| Shop.NoFreeCoins | src/shop.c:59-176 | No run of trades that brings the stock back to where it was makes a profit. |
| GroundItems.ItemList.Sweep | src/server.c:328-337 | The list becomes the swept one: what moves into the place of a removed item is passed over. |
| GroundItems.ItemList.Add | src/server.c:1256-1294 | An item with the next id and the current time goes to the end, and the array grows when it is full. |
| GroundItems.ItemList.Remove | src/server.c:1296-1308 | The list becomes the one without the id, by the same skipping loop. |
| GroundItems.ItemList.TakeOut | src/server.c:1303-1306 | The gap of one item is closed and the order kept. |
| GroundItems.SweptSorted | src/server.c:328-337 | Of k stale items, which are in front, a sweep leaves exactly those at odd places, k / 2 in number, and keeps all others, in order. |
| GroundItems.SweptPlace | src/server.c:328-337 | A stale item at an even place goes, and one at odd place j comes to place (j - 1) / 2. |
| GroundItems.StaleAge | src/server.c:328-332 | An item is stale at the age of 200 ticks. |
| GroundItems.YoungStays | src/server.c:328-337 | No sweep takes an item before its time, in whatever order the list is. |
| GroundItems.DroppedExact | src/server.c:1296-1308 | Taking an item takes exactly that one and keeps the order of the others. |
| GroundItems.DroppedNone | src/server.c:1296-1308 | Taking an item that is not there takes none. |
| GroundItems.HappenOk | src/server.c:1256-1308 | The list stays ordered by age and holds no id twice, over ticks, additions and removals. |
| GroundItems.EventHalves | src/server.c:328-337 | The place of a stale item, plus one, at least halves with every tick and never grows. |
| GroundItems.StaleItemGoes | src/server.c:328-337 | A stale item at place j is gone for good after any run of events with more than log2(j + 1) ticks. |
| GroundItems.BoundIsReached | src/server.c:328-337 | The bound is tight: a stale item at place 2^t - 1 survives t ticks. |
| Chat.FindTab | src/utility.c:408-413 | The search finds the first place of a character in the table, or 0. |
| Chat.PutChar | src/utility.c:404-435 | One character extends the nibbles written by its one or two, whatever half byte was waiting. |
| Chat.Compress | src/utility.c:393-442 | The bytes are the packed nibbles of the first 80 characters, at most 80 of them. |
| Chat.ReadNibble | src/utility.c:333-344 | On arbitrary input the table is never read outside its 61 places, and at most one character comes out. |
| Chat.TakeNibble | src/utility.c:333-344 | The statements for one nibble do as the reading function says. |
| Chat.Decompress | src/utility.c:325-364 | On arbitrary bytes the text is that of reading nibbles until 80 characters are out. |
| Chat.MessageRoundTrip | src/utility.c:318-442 | Decompressing a compressed message yields its first 80 characters in lower case, unknown ones as spaces, and one more space exactly when the number of nibbles is odd and there is room; the bytes are half the nibbles, rounded up, and at most 80. |
| Chat.MessageBytes | src/utility.c:393-442 | Two messages in bytes. |
| Chat.SentPart | src/utility.c:400-402 | Of a longer message the first 80 characters are sent. |
| Chat.TableOrder | src/utility.c:45-53 | The letters and digits in the order of their codes. |
| Chat.RecompressStable | src/utility.c:393-442 | Compressing what was decompressed gives the same bytes. |
| Chat.SentenceCase | src/utility.c:366-388 | The text becomes that of the sentence function, with its terminator. |
| Chat.SentencesMeaning | src/utility.c:366-386 | Only case and markup change, and a letter is capital if and only if no letter has come since the last full stop or exclamation mark. |
| Names.NameEnc | src/utility.c:225-251 | The code is the base-37 number of the sanitized name, wrapped to 64 bits. |
| Names.WrapsThrough | src/utility.c:240-248 | Wrapping at every step comes to wrapping once. |
| Names.PutDigits | src/utility.c:263-278 | The digits come out last character first. |
| Names.ReverseInPlace | src/utility.c:285-292 | The swapping loop reverses the characters. |
| Names.NameDec | src/utility.c:253-296 | The name is that of the code, or the marker of an invalid one. |
| Names.CodeRoundTrip | src/utility.c:225-296 | Every code from 1 to 2^63 - 1 is the code of the name it decodes to. |
| Names.EncodeFits | src/utility.c:240-248 | Names of at most 12 characters stay below 2^63. |
| Names.NameRoundTripIff | src/utility.c:211-296 | Decoding the code of a name gives the name without leading spaces, other characters as spaces, each word capitalised, if and only if it has a letter or digit and its code does not overflow. |
| Names.ShortNames | src/utility.c:211-296 | A name of at most 12 characters comes back if and only if it has a letter or digit. |
| Names.LongNameLost | src/utility.c:225-251 | A name of 13 characters that starts with a letter behind a, or with a digit, does not come back. |
| Names.SameCodeIff | src/utility.c:211-296 | Two names whose codes do not overflow share a code if and only if these forms agree. |
| Names.NoName | src/utility.c:233-282 | A name of more than 20 characters gets code 0, and codes up to 0 get the marker. |
| Names.CodeNumbers | src/utility.c:240-248 | Two names in numbers. |
| Inventory.Player.Give | src/inventory.c:26-70 | Inventory and what falls to the ground are those of the giving function: a capped stack, a new slot, or one slot to a piece. |
| Inventory.Player.RemoveId | src/inventory.c:119-163 | Inventory and bonuses are those of the removal function. |
| Inventory.Player.RemoveEach | src/inventory.c:145-162 | The second loop restarts at slot 1 after a removal, as its counter does. |
| Inventory.Player.TakeOut | src/inventory.c:149-160 | One item leaves its slot, the gap is closed, and bonuses are computed anew if it was worn. |
| Inventory.Player.Held | src/inventory.c:188-209 | A stack holds at least the count, or at least that many slots hold the item. |
| Inventory.Player.Clear | src/inventory.c:227-236 | All items go and the bonus fields stay as they are. |
| Inventory.Player.RecalculateEquip | src/player.c:1092-1131 | Every bonus field becomes one plus the sum over the worn items, in 8 bits. |
| Inventory.Player.ItemEquipClear | src/config/config.c:3-26 | The loop answers whether the types share a basic slot. |
| Inventory.Player.TakeOffClashing | src/player.c:1193-1208 | Exactly the other worn items that clash with the new one are taken off. |
| Inventory.Player.Wear | src/player.c:1179-1212 | Inventory and bonuses are those of putting the item on, or unchanged when it cannot be worn. |
| Inventory.Player.Unwear | src/player.c:1214-1231 | Inventory and bonuses are those of taking the item off. |
| InventoryProofs.EquipClearMeaning | src/config/config.c:3-26 | Two types clash if and only if they share a bit of the nine basic slots. |
| InventoryProofs.RemovedLoose | src/inventory.c:145-162 | Exactly as many loose items go as were asked for, if and only if not all held are asked for while slots 0 and 1 both hold one; then one stays. |
| InventoryProofs.RemovedLooseInstance | src/inventory.c:145-162 | Two loose items in the first two slots, both to go: one stays. |
| InventoryProofs.RemovedStack | src/inventory.c:131-162 | A stack loses exactly the count. |
| InventoryProofs.RemovedOne | src/inventory.c:145-162 | A single loose item, or a whole stack, leaves the first slot that holds it, and the rest moves up. |
| InventoryProofs.RemovedPart | src/inventory.c:131-144 | Part of a stack: it shrinks by the count where it is, and nothing else changes. |
| InventoryProofs.RemovedNone | src/inventory.c:119-163 | Nothing goes when nothing is there. |
| InventoryProofs.RemovedKeeps | src/inventory.c:119-163 | Removal changes the amount of no other item, and keeps one stack to a stackable item. |
| InventoryProofs.GivenCounts | src/inventory.c:26-70 | Giving adds exactly the count, what falls included, if and only if no stack exceeds the limit; no other item changes. |
| InventoryProofs.GivenStackExact | src/inventory.c:32-58 | What is given to a stack goes on it, up to the limit; else into one new slot, or, without room, to the ground. |
| InventoryProofs.GivenLooseExact | src/inventory.c:59-69 | Loose items go one to a slot as long as there are any; exactly the others fall. |
| InventoryProofs.WearKeeps | src/player.c:1179-1212 | Putting something on keeps worn items apart and bonuses right. |
| InventoryProofs.WearExact | src/player.c:1179-1212 | The item is worn afterwards; whatever else was worn stays worn if and only if it shares no basic slot with it; nothing else is put on and nothing is moved. |
| InventoryProofs.WearRefused | src/player.c:1184-1192 | What is not there, cannot be worn or may not be, changes nothing. |
| InventoryProofs.UnwearExact | src/player.c:1214-1231 | Taking off takes off exactly that item, if it can be worn, and else nothing. |
| InventoryProofs.BonusIsSum | src/player.c:1104-1131 | Every bonus field is one plus the sum of that field over what is worn, in 8 bits. |
| InventoryProofs.UnwearKeeps | src/player.c:1214-1231 | So does taking it off. |
| InventoryProofs.RemovedDressed | src/inventory.c:119-163 | So does removing items, although bonuses are computed only when a worn one goes. |
| InventoryProofs.GivenDressed | src/inventory.c:26-70 | So does giving items, although no bonuses are computed. |
| InventoryProofs.RunDressed | src/player.c:1092-1231 | Over every run of these, no two worn items need the same basic slot, and every bonus field is one plus the sum over what is worn. |
| InventoryProofs.ClearedIff | src/inventory.c:227-236 | Clearing the inventory keeps the bonuses right if and only if they were those of nothing. |
| InventoryProofs.ClearedInstance | src/inventory.c:227-236 | A worn item with a bonus: its bonus outlives the clearing. |
| Bank.Account.Deposit | src/bank.c:8-31 | Inventory and bank are those of the deposit function: refused, added to the entry, or a new entry. |
| Bank.Account.BankRemove | src/bank.c:33-52 | Bank and amount are those of the removal function: the entry shrinks, or goes when it is used up. |
| Bank.Account.Withdraw | src/bank.c:54-89 | Inventory, bank and what falls to the ground are those of the withdrawal function. |
| Bank.DepositIff | src/bank.c:8-31 | A deposit puts exactly the amount into the bank if and only if the bank is open, the player has that much, and the entry has room for it or fewer than 48 exist; else nothing changes. Other entries stay where they are. |
| Bank.WithdrawIff | src/bank.c:54-89 | A withdrawal takes exactly the amount, or what there is, out of the bank if and only if it is open, the item is known, and there is a stack to join or the room that the amount, read as signed, asks for; else nothing changes. |
| Bank.DepositConserves | src/bank.c:8-31 | A deposit conserves what is owned of every item, if and only if it is not one that asks for all of a loose item while slots 0 and 1 both hold one; then one is gained. Entries stay unique, positive and bounded. |
| Bank.WithdrawConserves | src/bank.c:54-89 | A withdrawal conserves what is owned, what falls included, if and only if it does not push a stack over the limit; something falls only if the amount is negative as a signed number. |
| Bank.RunConserves | src/bank.c:8-89 | Over every run of deposits and withdrawals that neither duplicate nor overflow, what is owned and what falls add up, and the holdings stay orderly. |
| Bank.TransferConserves | src/bank.c:8-89 | A single transfer conserves its item, what falls included, if and only if it neither duplicates nor overflows, and never touches another. |
| Bank.PlainRunsFair | src/bank.c:8-89 | Signed amounts, loose items deposited one at a time and totals within the limit: such runs are of that kind, and nothing falls. |
| Bank.DuplicatesInstance | src/bank.c:8-31 | Two loose items in the first two slots are both deposited: three are owned. |
| Bank.OverflowsInstance | src/bank.c:54-89 | A coin withdrawn onto a full stack is gone. |

## Left out

- Outgoing.Player.BuildMovement: the server does not check that its arrays of 255 have room for the new list; the
  model takes the length of the new list as a precondition, here, in Wire.SendMovement and in Server.ServerMirrors.
  Server.RoomForFew proves it for up to 255 connected players.
- MoveMirror.RunMirrors: a player slot is assumed not to be given to somebody else between two packets to the same
  client. The server frees slots in front of the packets of a tick and gives them out between ticks, so it does not.
- Server.ServerMirrors: logins are those of Zones.LoginOkIff, with an id that no stale slot holds and without leaving
  the zone of the stored tile; otherwise the index, and with it the query for nearby players, is wrong. One client is
  followed at a time, and what other clients' packets do to the index are lookups, which a history may hold in any
  number. A client is sent a packet in every tick once it has logged in, as the server does.
- Session.LossInstance: the generator is one made up to draw different keys; which seeds draw them is not computed.
- Wire.WireMirrors: with masked opcodes every write has to find room; what a client makes of a packet opened with a
  wrong key is not part of this model.
- WalkProofs.RunSafe: waypoints have coordinates of at least 0, and no call sends the mob north off the edge of its
  plane; WalkProofs.TickSafeIff says exactly what happens otherwise.
- Walk.Mob.ProcessWalkQueue: the combat reset of another mob that was caught is reported, and done by whoever holds
  that mob.
- MoveMirror.ActsTick: a teleport is what others see of it; the fights and queues it ends are left out.
- Nearby.ZoneTable.PlayerMoved: the end of a chase by an NPC that is left behind is left out.
- Nearby.ZoneTable.AddPlayer: a failing allocation is not modelled, and a zone not used yet is one without slots.
- Framing.Inbox.ParseIncoming: a failing allocation of the packet copy is not modelled, and packets are dispatched to a
  list; what their handlers do to the connection is not part of this model.
- Framing.Outbox.Enqueue: payloads longer than 24575 bytes, whose length the header cannot express, are queued with a
  header about which nothing is said.
- Names.NameEnc: C leaves signed overflow undefined; the model takes the two's complement wrap.
- Shop.TradesBounded: the drift of stock over time (`shop_process`) is outside the claim, and coins are counted as paid,
  whether or not the customer's stack of coins is at its limit.
- Shop.ShopConfig.SellTo: taking the item and giving the coins are left to the inventory; the restock timer of a pawned
  item is whatever the memory held.
- Inventory.Player.RecalculateEquip: sprites and the projectile of the worn items are not modelled.
- Inventory.Player.RemoveId: the twin of this function that takes a name instead of an id is left out.
- GroundItems.ItemList.Add: owner, place and the surface flag of an item are left out.
- NPCs: the NPC mirror and the NPC slots of the zones are left out; an NPC can be stepped a second time in one tick.
- The script command `changelevelup`, which changes a player's plane without moving it in the zone index.
- Wall bits as a cache of scenery: the grid is a fixed input, and changes of scenery are not modelled.
- Lua triggers are booleans; sockets, the database, RSA, the cache files, logging and the clock are left out.
- Trade, combat rolls, experience, prayers, interface packets, appearance updates and admin commands are left out.
