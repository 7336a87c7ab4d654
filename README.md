# 2D-Rooms room placement, modelled in Dafny

2D-Rooms grows a connected dungeon layout of fixed-size, axis-aligned
rectangular rooms, one room per tick of a timer. Every room has four
connection slots (north, east, south, west). A tick does the following:

- picks an anchor at random from the list of rooms with available connections;
- picks one of the anchor's free slots;
- computes the outline of a new room next to the anchor in that direction, at
  the configured separation;
- skips the tick if that outline overlaps a room of the open list;
- otherwise links the two rooms both ways and updates the two lists.

The first tick places the origin room at the starting outline. The timer is
cleared once the tick counter reaches the target room count.

This project models that placement core of `main.js` and proves what it
guarantees. It has two layers:

- **The program as it runs** (module `Generator`). `Room` is a class whose
  connection slots are filled in place. `Builder` is a class that owns:
  - the list of all rooms;
  - the list of rooms with available connections, which holds the very same
    room records;
  - the tick counter;
  - the flag for the cleared timer;
  - the last computed outline.

  The stateful functions of `main.js` (`setConnectionIDs`, `isCollision`,
  `roomHasConnectionAvailable`, `getAvailableConnections`,
  `removeConnectingRoomFromListIfNoMoreConnections`, `generateRoom`) are
  methods, with loops where the source has them. The pure ones
  (`setRoomCoords`, `getRandomItemInList`, `getRandomNumber`) are functions
  in `Geometry` and `Choice`, and `createRoomObject` is the `Room`
  constructor.
  `GenerateRoom` is proved to perform exactly one step of the value-level model.
- **The generation state as a value** (module `RoomGraph`). `Step` is one tick
  as a function of the state and the two random draws. The lemmas prove:
  - the invariant of a run (ids, room sizes, mutual and geometrically
    consistent links, a duplicate-free open list, the tick counter);
  - what each kind of tick does;
  - that generation stops at the target.

The other modules are:

- `Geometry`: directions, the opposite-direction table, outlines,
  `setRoomCoords` and the overlap test.
- `Optional`: a value that may be absent (the source's null or undefined).
- `Connections`: the four slots and the list of free slots.
- `Choice`: random choice from a list.
- `OpenList`: the removal of a sealed anchor.
- `SpliceWitness`: a concrete run that exhibits the finding below.

Random numbers are parameters. `getRandomNumber(0, len)` becomes
`draw % len` for a caller-supplied natural `draw`, and 0 for an empty list.
Every position is reachable, and no position outside the list is.

Room UUIDs become the position of the room in the list of all rooms. That
position is unique within a run, which is all the generator relies on.

The source's quirks are modelled as written:

- **Removing a sealed anchor removes the head of the open list.** See
  "Findings" below.
- **A sealed room can therefore stay in the open list** and be picked as an
  anchor. Its list of free slots is then empty, and the direction read from it
  is undefined. `setRoomCoords` then reaches its `default` branch and throws
  "Room connection to use not specified!" (`main.js:232-233`). The model gives
  this tick the outcome `Failed(ConnectionNotSpecified)`, and the state is
  unchanged.
- **The last computed outline is recorded even on a tick that then skips**,
  because the assignment at `main.js:48` comes before the collision test at
  `main.js:50`.
- **A thrown error does not clear the timer.** `setInterval` keeps calling
  `generateRoom`, so `Run` continues after a failed tick, which changes
  nothing.
- **Collisions are tested only against the open list**, not against every
  placed room.

## Model

| member | source | states |
|---|---|---|
| Geometry.Opposite | main.js:4-9 | the connection table maps every direction to a different direction on the same axis (N and S, E and W) |
| Geometry.OppositeIsInvolution | main.js:4-9 | the table is an involution: the opposite of the opposite is the direction itself |
| Geometry.SourceConfigWellFormed | main.js:10-27 | the source's constants (12 rooms, start 600,300 to 700,400, separation 20, rooms 100 by 100) form a well-formed configuration: positive sizes, non-negative separation, a starting outline of the room size |
| Geometry.SetRoomCoords | main.js:181-237 | the new outline keeps the anchor's span across the chosen direction, has the configured height (N, S) or width (E, W), and lies exactly the separation away from the anchor's facing side |
| Geometry.SetRoomCoordsSized | main.js:181-237 | attached to a room of the configured size, the new room has the configured size and is a proper rectangle |
| Geometry.SetRoomCoordsValid | main.js:181-237 | any proper anchor gives a proper rectangle when both room sizes are positive |
| Geometry.SetRoomCoordsInverse | main.js:181-237 | attaching in a direction and then in the opposite direction gives back the anchor's outline |
| Geometry.SetRoomCoordsEastOfStart | main.js:196-206 | east of the starting room (600,300)-(700,400) lies (720,300)-(820,400) |
| Geometry.SetRoomCoordsClearOfAnchor | main.js:181-237 | with a non-negative separation the new outline never overlaps its own anchor |
| Geometry.OverlapsIffSharedCell | main.js:146-149 | the strict-inequality test holds exactly when two proper rectangles share a unit cell |
| Geometry.OverlapsSymmetric | main.js:146-149 | the collision test is symmetric |
| Geometry.SeparatedRoomsDoNotOverlap | main.js:146-149 | rooms that only touch at an edge, or lie apart on some axis, do not collide |
| Geometry.SameRectOverlaps | main.js:146-149 | a proper rectangle collides with an identical one |
| Connections.Slots.Set | main.js:157-160 | writing one slot sets it and leaves the other three unchanged |
| Connections.AvailableExactlyFree | main.js:173-179 | the free-slot list holds exactly the null slots, in slot order, and is non-empty exactly when the room has a null slot |
| Connections.AvailableListed | main.js:173-179 | the free-slot list is the null slots among north, east, south, west, in that order |
| Connections.FreeAmongMembers | main.js:175-177 | the slots collected from a list of directions are those of the list whose slot is null |
| Connections.FreeAmongOrdered | main.js:175-177 | collecting keeps the order of the directions scanned |
| Connections.LinkedNewRoomHasFree | main.js:54 | a new room linked through one slot has exactly the other three slots free, so it joins the open list |
| Choice.RandomIndex | main.js:253-255 | the drawn position lies in [0, len), and is 0 for an empty list |
| Choice.RandomItem | main.js:245-251 | the reported index is the drawn position; an item is present exactly when the list is non-empty, and it is the entry at that index |
| Choice.RandomItemReachesEvery | main.js:245-251 | every entry of a non-empty list is chosen by some draw |
| OpenList.SpliceAtFound | main.js:239-243 | the removal as written drops the head of the list and keeps the rest in order |
| OpenList.SpliceAtFoundKeepsDistinct | main.js:239-243 | the removal as written keeps the list duplicate-free and adds nothing |
| OpenList.SpliceAtFoundMissesTarget | main.js:241 | when the sealed room is not the head, it stays in the list, the head goes, and the result differs from the intended removal |
| OpenList.RemoveFirstRemovesOnlyIt | main.js:241 | the intended removal takes exactly the sealed room out of a duplicate-free list, shortens it by one, and keeps it duplicate-free |
| Geometry.Overlaps | main.js:146-149 | the collision test between a new room and a placed room: the open intervals meet on both axes; see OverlapsIffSharedCell, OverlapsSymmetric, SeparatedRoomsDoNotOverlap |
| Connections.HasFree | main.js:162-171 | the room has a null slot; RoomHasConnectionAvailable decides it |
| Connections.FreeAmong | main.js:175-177 | the null slots among the directions scanned, in scan order; see FreeAmongMembers, FreeAmongOrdered |
| Connections.Available | main.js:173-179 | the list of null slots of a room; see AvailableExactlyFree, AvailableListed |
| OpenList.RemoveFirst | main.js:241 | the removal the function name promises: drop the sealed room itself; see RemoveFirstRemovesOnlyIt, IntendedKeepsOpenExact |
| RoomGraph.Initial | main.js:23-30 | the state before the first tick: no rooms, empty open list, the starting outline, counter 0, timer running; see InitialWellFormed |
| RoomGraph.Collides | main.js:144-155 | the outline overlaps some room of the open list; CollisionAgrees ties it to IsCollision |
| RoomGraph.DropSealed | main.js:239-243 | how a sealed anchor leaves the open list: the head as written, the anchor itself as intended; see StepAsWrittenOpenList, DropSealedKeepsLast |
| RoomGraph.Link | main.js:52-55 | a committed room before counting: linked both ways, appended, offered if it has a null slot, the anchor removed if sealed; see PlaceRooms, PlaceOpen, PlaceKeepsOpenList |
| RoomGraph.Counted | main.js:60-63 | the counter rises by one and the timer is cleared once it reaches the target; CountTick performs it |
| RoomGraph.Place | main.js:52-63 | a committed and counted placement; see PlaceWellFormed, PlaceKeepsOpenExact, PlaceKeepsSealedAnchor |
| RoomGraph.Attempt | main.js:48-63 | the end of a tick once anchor and slot are chosen: outline recorded, skip on a collision, placement otherwise; TryRoom performs it |
| RoomGraph.Step | main.js:33-64 | one tick of generateRoom with the two draws; see StepOrigin, StepFailOrSkip, StepDrawnCandidate, StepPlaced, StepPreservesWellFormed, StepRoomCount; GenerateRoom performs it |
| RoomGraph.Run | main.js:31-63 | the timer: one tick per pair of draws until the timer is cleared, continuing after a throw; see RunStopsAtTarget |
| RoomGraph.InitialWellFormed | main.js:23-30 | the initial state (no rooms, empty open list, starting outline, counter 0) satisfies the invariant of a run |
| RoomGraph.Anchor | main.js:44 | the anchor drawn from a non-empty open list is a room of that list |
| RoomGraph.AttachKeepsLinks | main.js:157-160 | linking a free slot of the anchor to the new room keeps every link mutual and geometrically consistent |
| RoomGraph.PlaceKeepsOpenList | main.js:54-55 | after a placement the open list holds only existing rooms, each once |
| RoomGraph.PlaceWellFormed | main.js:52-55 | a placement through a free slot keeps the invariant of a run |
| RoomGraph.StepPreservesWellFormed | main.js:33-64 | every tick keeps the invariant of a run |
| RoomGraph.StepOrigin | main.js:34-38 | the first tick places room 0 at the starting outline with every slot null, makes it the only open room and counts the tick |
| RoomGraph.StepFailOrSkip | main.js:40-50 | "no rooms with available connections" is thrown exactly when rooms exist and the open list is empty; "connection not specified" exactly when the drawn anchor has no null slot; a throw changes nothing; a skip changes only the last computed outline, which overlaps an open room other than the anchor |
| RoomGraph.StepDrawnCandidate | main.js:44-55 | when the drawn anchor has a null slot, the tick tries the outline next to the drawn anchor at the drawn slot (the free-slot list is non-empty there); it skips, recording that outline, exactly when the outline collides with a room of the open list, and otherwise places the next room, whose id is the number of rooms so far, at the drawn anchor and slot |
| RoomGraph.PlaceRooms | main.js:52-53 | a placement adds one room at the computed outline, links the anchor's slot and the new room's opposite slot to each other, and changes no other room |
| RoomGraph.PlaceOpen | main.js:54-55 | after a placement the new room is in the open list, which grows by one unless the anchor is now sealed, in which case its length is unchanged |
| RoomGraph.StepPlaced | main.js:44-55 | a placing tick uses the next id, an open anchor and one of its null slots, and does not overlap any open room; the two rooms are linked both ways and no other room changes; the new room is open; the open list grows by one unless the anchor is sealed |
| RoomGraph.StepAsWrittenOpenList | main.js:239-243 | as written, a placing tick appends the new room to the open list, and drops the list's head instead of the anchor when the anchor is sealed |
| RoomGraph.StepRoomCount | main.js:60 | the tick counter and the room count grow together: by one on a placement, not at all otherwise |
| RoomGraph.RunStopsAtTarget | main.js:60-63 | whatever the draws, a run keeps the invariant and never exceeds the target room count, and when the timer has been cleared exactly the target count of rooms exists |
| RoomGraph.PlaceKeepsOpenExact | main.js:241 | with the intended removal, a placement keeps the open list exactly the set of rooms with a null slot |
| RoomGraph.IntendedKeepsOpenExact | main.js:241 | with the intended removal, every tick keeps the open list exactly the set of rooms with a null slot |
| RoomGraph.PlaceKeepsSealedAnchor | main.js:241 | as written, a placement that seals an anchor which is not at the head leaves the anchor in the open list and removes the head |
| RoomGraph.AsWrittenKeepsSealedAnchor | main.js:241 | the same for a whole tick of generateRoom |
| SpliceWitness.FirstTick | main.js:34-38 | with the source's constants the first tick places room 0 at (600,300)-(700,400) |
| SpliceWitness.SecondTick | main.js:44-55 | draws (0,1) place room 1 east of room 0 |
| SpliceWitness.ThirdTick | main.js:44-55 | draws (1,0) place room 2 north of room 1 |
| SpliceWitness.FourthTick | main.js:44-55 | draws (1,0) place room 3 east of room 1 |
| SpliceWitness.FifthPlacement | main.js:52-55 | placing room 4 south of room 1 seals room 1, and the open list becomes [1, 2, 3, 4] |
| SpliceWitness.FifthTick | main.js:44-55 | draws (1,0) place room 4 south of room 1 |
| SpliceWitness.SealedAnchorStaysOpen | main.js:241 | after the fifth tick, room 1 has no null slot but is still offered as an anchor, and room 0 has three null slots but is no longer offered |
| SpliceWitness.SixthTickThrows | main.js:232-233 | a sixth tick whose anchor draw picks room 1 throws "connection not specified" and changes nothing |
| Generator.Room.constructor | main.js:123-142 | a new room record has the given id and outline and all four slots null |
| Generator.RoomHasConnectionAvailable | main.js:162-171 | the scan returns true exactly when some slot is null |
| Generator.GetAvailableConnections | main.js:173-179 | the collected list is the model's free-slot list, which holds exactly the null slots in slot order |
| Generator.SetConnectionIDs | main.js:157-160 | the new room records the anchor in the opposite slot, and the anchor records the new room in the chosen slot; no other slot changes |
| Generator.Builder.constructor | main.js:23-30 | a new builder is in the model's initial state and satisfies the run invariant |
| Generator.Builder.IsCollision | main.js:144-155 | the scan returns true exactly when the outline overlaps some room of the open list |
| Generator.Builder.CollisionAgrees | main.js:144-155 | the scan over room records decides the same thing as the model's collision test over room ids |
| Generator.Builder.RemoveConnectingRoomFromListIfNoMoreConnections | main.js:239-243 | the open list is unchanged while the room has a null slot, and otherwise loses its head |
| Generator.Builder.AddLinkedRoom | main.js:52-53 | the new room is appended to the list of all rooms, and the room views become the model's linked rooms |
| Generator.Builder.OfferRoom | main.js:54 | the new room joins the open list exactly when it has a null slot, and the shared records stay shared |
| Generator.Builder.PlaceOriginRoom | main.js:34-38 | the origin room at the current outline becomes room 0 and the only open room |
| Generator.Builder.CommitRoom | main.js:52-55 | the rooms and the open list become exactly those of the model's placement |
| Generator.Builder.CountTick | main.js:60-63 | the counter grows by one, and the timer is cleared once it reaches the target |
| Generator.Builder.TryRoom | main.js:48-63 | the outline is recorded; on a collision nothing else changes; otherwise the room is committed and counted, exactly as the model's attempt |
| Generator.Builder.GenerateRoom | main.js:33-64 | one call performs exactly one step of the model with the given draws, and keeps the run invariant |

## Left out

- Canvas setup and drawing (`main.js:1-2`, `drawRoom` and `drawConnector` at
  `main.js:66-121`) are rendering output only. The connector position also
  uses fractional coordinates.
- The timer itself (`setInterval` at `main.js:31`, `clearInterval` at
  `main.js:62`) belongs to the host event loop. One tick is one call of
  `GenerateRoom`; `Run` applies ticks to a list of draws until the timer is
  cleared. Clearing is the `cleared` flag.
- `Math.random` in `getRandomNumber` (`main.js:253-255`) is floating point. It
  is replaced by a caller-supplied draw taken modulo the list length. Every
  position is reachable, but the distribution over positions is not modelled.
- `generateUUIDv4` (`main.js:257-261`) uses the crypto API. Ids are the
  room's position in the list of all rooms instead, so only their uniqueness
  is modelled.
- The `default` branch of the switch in `drawConnector` (`main.js:108-109`) is
  part of the drawing code that is left out.
- `createRoomObject` is called with a second argument (`main.js:35`,
  `main.js:49`) that it
  ignores. The model's constructor takes only the id and the outline.
- `Generator.Builder.CommitRoom` and the other state-changing methods state
  their effect on the model's view of the state. Room records that are
  unreachable from the builder are not described.

## Findings

| source | as written | input that shows it | evidently intended | confidence | as-written member | corrected member |
|---|---|---|---|---|---|---|
| main.js:241 | `splice(find(...), 1)` receives the room record that `find` returns, not an index. The record converts to position 0, so the head of the open list is removed instead of the sealed anchor. | The source's constants with draws (0,0), (0,1), (1,0), (1,0), (1,0). Room 1 is sealed by the fifth tick, but room 0 (three null slots) is removed and room 1 stays. A sixth tick with anchor draw 0 then picks room 1 and throws "Room connection to use not specified!" | remove the sealed anchor itself, so that the open list is always the set of rooms with a null slot | not executed | SpliceWitness.SealedAnchorStaysOpen | RoomGraph.IntendedKeepsOpenExact |

The function's own name, `removeConnectingRoomFromListIfNoMoreConnections`
(`main.js:239`), says the anchor should leave the list, and its test at
`main.js:240` checks the anchor; only line 241 removes the head instead.

`Step` takes the removal as a parameter: `AsWritten` is the splice as it is
written, and `Intended` uses `RemoveFirst`. The class-based generator performs
the removal as written, because that is what the program does.
`IntendedKeepsOpenExact` proves the intended invariant for the corrected
removal, and `AsWrittenKeepsSealedAnchor` proves that it fails as written for
every state in which the sealed anchor is not at the head of the list.
