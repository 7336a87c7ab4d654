/** The room generator as the program runs it: room records whose
    connection slots are filled in place, and a builder that owns the list of
    all rooms, the list of rooms with available connections (holding the
    same room records), the tick counter and the last computed outline. Each
    operation is proved to follow the value-level model in RoomGraph. */
module Generator {
  import opened Geometry
  import opened Optional
  import opened Connections
  import opened Choice
  import opened OpenList
  import opened RoomGraph

  /** A room record: its id and outline never change; its connection slots
      are filled in as neighbours are attached. */
  class Room {
    const id: RoomId
    const rect: Rect
    var connections: Slots

    /** createRoomObject: a room at `rect` with every slot empty. */
    constructor (id: RoomId, rect: Rect)
      ensures this.id == id && this.rect == rect && connections == Unconnected
    {
      this.id := id;
      this.rect := rect;
      connections := Unconnected;
    }

    ghost function View(): RoomView
      reads this
    {
      RoomView(id, rect, connections)
    }
  }

  ghost function Views(rs: seq<Room>): (vs: seq<RoomView>)
    reads rs
    ensures |vs| == |rs| && forall k :: 0 <= k < |rs| ==> vs[k] == rs[k].View()
  {
    seq(|rs|, k requires 0 <= k < |rs| reads rs => rs[k].View())
  }

  function Ids(rs: seq<Room>): (ids: seq<RoomId>)
    ensures |ids| == |rs| && forall k :: 0 <= k < |rs| ==> ids[k] == rs[k].id
  {
    seq(|rs|, k requires 0 <= k < |rs| => rs[k].id)
  }

  lemma IdsAppend(rs: seq<Room>, r: Room)
    ensures Ids(rs + [r]) == Ids(rs) + [r.id]
  {
  }

  lemma IdsSplice(rs: seq<Room>)
    ensures Ids(SpliceAtFound(rs)) == SpliceAtFound(Ids(rs))
  {
  }

  /** roomHasConnectionAvailable: scans the slots in order and stops at the
      first empty one. */
  method RoomHasConnectionAvailable(room: Room) returns (available: bool)
    ensures available <==> HasFree(room.connections)
  {
    available := false;
    var i := 0;
    while i < |Directions|
      invariant 0 <= i <= |Directions|
      invariant !available
      invariant forall k :: 0 <= k < i ==> room.connections.Get(Directions[k]) != None
    {
      if room.connections.Get(Directions[i]) == None {
        available := true;
        break;
      }
      i := i + 1;
    }
    if !available {
      forall d ensures room.connections.Get(d) != None {
        assert Directions[Rank(d)] == d;
      }
    }
  }

  /** getAvailableConnections: the empty slots, collected in slot order. */
  method GetAvailableConnections(room: Room) returns (available: seq<Direction>)
    ensures available == Available(room.connections)
  {
    available := [];
    for i := 0 to |Directions|
      invariant available == FreeAmong(room.connections, Directions[..i])
    {
      assert Directions[..i + 1][..i] == Directions[..i];
      if room.connections.Get(Directions[i]) == None {
        available := available + [Directions[i]];
      }
    }
    assert Directions[..|Directions|] == Directions;
  }

  /** setConnectionIDs: the new room records the anchor in the opposite
      slot, then the anchor records the new room in slot `d`. */
  method SetConnectionIDs(newRoom: Room, connectingRoom: Room, d: Direction)
    modifies newRoom, connectingRoom
    ensures newRoom != connectingRoom ==>
              newRoom.connections == old(newRoom.connections).Set(Opposite(d), Some(connectingRoom.id)) &&
              connectingRoom.connections == old(connectingRoom.connections).Set(d, Some(newRoom.id))
    ensures newRoom == connectingRoom ==>
              newRoom.connections == old(newRoom.connections).Set(Opposite(d), Some(newRoom.id)).Set(d, Some(newRoom.id))
  {
    newRoom.connections := newRoom.connections.Set(Opposite(d), Some(connectingRoom.id));
    connectingRoom.connections := connectingRoom.connections.Set(d, Some(newRoom.id));
  }

  class Builder {
    const cfg: Config
    /** Every room created, in creation order. */
    var rooms: seq<Room>
    /** The rooms with available connections: the anchors on offer. */
    var open: seq<Room>
    /** The outline most recently computed. */
    var roomCoords: Rect
    var iterations: nat
    /** The interval driving the ticks has been cleared. */
    var cleared: bool

    ghost function State(): GenState
      reads this, rooms
    {
      GenState(Views(rooms), Ids(open), iterations, cleared, roomCoords)
    }

    /** The open list holds the very room records that are in the list of
        all rooms. */
    ghost predicate Shared()
      reads this
    {
      forall k :: 0 <= k < |open| ==> open[k].id < |rooms| && open[k] == rooms[open[k].id]
    }

    /** The state is a well-formed run whose open list shares its records
        with the list of all rooms. */
    ghost predicate Valid()
      reads this, rooms
    {
      cfg.WellFormed() && WellFormed(State(), cfg) && Shared()
    }

    constructor (cfg: Config)
      requires cfg.WellFormed()
      ensures Valid() && this.cfg == cfg && State() == Initial(cfg)
    {
      this.cfg := cfg;
      rooms := [];
      open := [];
      roomCoords := cfg.start;
      iterations := 0;
      cleared := false;
      new;
      assert Views([]) == [];
      assert Ids([]) == [];
    }

    /** isCollision: the outline of `nr` meets a room of the open list. */
    method IsCollision(nr: Room) returns (collides: bool)
      ensures collides <==> exists k :: 0 <= k < |open| && Overlaps(nr.rect, open[k].rect)
    {
      for i := 0 to |open|
        invariant forall k :: 0 <= k < i ==> !Overlaps(nr.rect, open[k].rect)
      {
        if Overlaps(nr.rect, open[i].rect) {
          return true;
        }
      }
      return false;
    }

    /** The scan over the open list decides `Collides` on the model. */
    lemma CollisionAgrees(rect: Rect)
      requires Shared() && OpenInRange(State())
      ensures (exists k :: 0 <= k < |open| && Overlaps(rect, open[k].rect)) <==> Collides(rect, State())
    {
      forall k | 0 <= k < |open|
        ensures open[k].rect == State().rooms[State().open[k]].rect
      {
        assert open[k] == rooms[open[k].id];
      }
    }

    /** removeConnectingRoomFromListIfNoMoreConnections, including its
        removal of the head of the list. */
    method RemoveConnectingRoomFromListIfNoMoreConnections(room: Room)
      modifies this`open
      ensures open == if HasFree(room.connections) then old(open) else SpliceAtFound(old(open))
    {
      var available := RoomHasConnectionAvailable(room);
      if !available {
        open := SpliceAtFound(open);
      }
    }

    /** Links a new room to its anchor through slot `d` and appends it to
        the list of all rooms. */
    method AddLinkedRoom(room: Room, connectingRoom: Room, d: Direction)
      requires forall k :: 0 <= k < |rooms| ==> rooms[k].id == k
      requires connectingRoom.id < |rooms| && rooms[connectingRoom.id] == connectingRoom
      requires room !in rooms && room.id == |rooms| && room.connections == Unconnected
      modifies this`rooms, room, connectingRoom
      ensures rooms == old(rooms) + [room]
      ensures Views(rooms) == Attach(old(Views(rooms)), connectingRoom.id, d, room.rect)
    {
      ghost var before := Views(rooms);
      SetConnectionIDs(room, connectingRoom, d);
      rooms := rooms + [room];
      ghost var after := Attach(before, connectingRoom.id, d, room.rect);
      forall k | 0 <= k < |rooms|
        ensures Views(rooms)[k] == after[k]
      {
        if k < |rooms| - 1 && k != connectingRoom.id {
          assert rooms[k] != connectingRoom && rooms[k] != room;
        }
      }
    }

    /** The branch of generateRoom that creates the origin room. */
    method PlaceOriginRoom()
      requires Valid() && rooms == []
      modifies this`rooms, this`open
      ensures Shared()
      ensures State() == old(State()).(rooms := [RoomView(0, old(roomCoords), Unconnected)], open := old(Ids(open)) + [0])
    {
      var room := new Room(0, roomCoords);
      rooms := rooms + [room];
      open := open + [room];
      assert Views(rooms) == [RoomView(0, roomCoords, Unconnected)];
      IdsAppend(old(open), room);
    }

    /** A room that still has a free slot joins the open list. */
    method OfferRoom(room: Room)
      requires Shared() && room.id < |rooms| && rooms[room.id] == room
      modifies this`open
      ensures Shared()
      ensures open == if HasFree(room.connections) then old(open) + [room] else old(open)
    {
      var hasFree := RoomHasConnectionAvailable(room);
      if hasFree {
        open := open + [room];
      }
    }

    /** The part of generateRoom that commits a room which does not collide. */
    method CommitRoom(room: Room, connectingRoom: Room, d: Direction)
      requires Shared() && forall k :: 0 <= k < |rooms| ==> rooms[k].id == k
      requires connectingRoom.id < |rooms| && rooms[connectingRoom.id] == connectingRoom
      requires room !in rooms && room.id == |rooms| && room.connections == Unconnected
      requires room.rect == SetRoomCoords(connectingRoom.rect, d, cfg) && roomCoords == room.rect
      modifies this`rooms, this`open, room, connectingRoom
      ensures Shared()
      ensures var link := Link(old(State()), cfg, AsWritten, connectingRoom.id, d);
              Views(rooms) == link.rooms && Ids(open) == link.open
    {
      ghost var s0 := State();
      ghost var link := Link(s0, cfg, AsWritten, connectingRoom.id, d);
      AddLinkedRoom(room, connectingRoom, d);
      assert Views(rooms) == link.rooms;
      OfferRoom(room);
      IdsAppend(old(open), room);
      ghost var open1 := open;
      assert Ids(open1) == if HasFree(link.rooms[room.id].slots) then s0.open + [room.id] else s0.open;
      RemoveConnectingRoomFromListIfNoMoreConnections(connectingRoom);
      IdsSplice(open1);
      assert connectingRoom.connections == link.rooms[connectingRoom.id].slots;
      assert Ids(open) == link.open;
    }

    /** The end of a placing tick: count it, and clear the interval once
        the target is reached. */
    method CountTick()
      modifies this`iterations, this`cleared
      ensures State() == Counted(old(State()), cfg)
    {
      iterations := iterations + 1;
      if iterations >= cfg.numRooms {
        cleared := true;
      }
    }

    /** The end of generateRoom once an anchor and a free slot are chosen:
        compute the outline, skip the tick on a collision, otherwise commit
        the room and count the tick. */
    method TryRoom(connectingRoom: Room, connectionToUse: Direction) returns (outcome: Outcome)
      requires Shared() && OpenInRange(State()) && forall k :: 0 <= k < |rooms| ==> rooms[k].id == k
      requires connectingRoom.id < |rooms| && rooms[connectingRoom.id] == connectingRoom
      modifies this, rooms
      ensures Shared()
      ensures var t := Attempt(old(State()), cfg, AsWritten, connectingRoom.id, connectionToUse);
              State() == t.next && outcome == t.outcome
    {
      ghost var s0 := State();
      ghost var a := connectingRoom.id;
      ghost var t := Attempt(s0, cfg, AsWritten, a, connectionToUse);
      assert s0.rooms[a].rect == connectingRoom.rect;
      CollisionAgrees(SetRoomCoords(connectingRoom.rect, connectionToUse, cfg));
      roomCoords := SetRoomCoords(connectingRoom.rect, connectionToUse, cfg);
      var room := new Room(|rooms|, roomCoords);
      var collides := IsCollision(room);
      ghost var s1 := State();
      assert s1 == s0.(roomCoords := roomCoords);
      if collides {
        assert t == Tick(s1, Skipped);
        return Skipped;
      }
      assert t == Tick(Place(s0, cfg, AsWritten, a, connectionToUse), Placed(|s0.rooms|, a, connectionToUse));
      LinkIgnoresCoords(s0, cfg, AsWritten, a, connectionToUse, roomCoords);
      CommitRoom(room, connectingRoom, connectionToUse);
      outcome := Placed(room.id, connectingRoom.id, connectionToUse);
      ghost var link := Link(s1, cfg, AsWritten, a, connectionToUse);
      assert State() == GenState(link.rooms, link.open, link.iterations, link.cleared, link.roomCoords);
      CountTick();
    }

    /** generateRoom: one tick, with the two random choices supplied as draws. */
    method GenerateRoom(anchorDraw: nat, directionDraw: nat) returns (outcome: Outcome)
      requires Valid()
      modifies this, rooms
      ensures Valid()
      ensures var t := Step(old(State()), cfg, AsWritten, anchorDraw, directionDraw);
              State() == t.next && outcome == t.outcome
    {
      ghost var s0 := State();
      ghost var t := Step(s0, cfg, AsWritten, anchorDraw, directionDraw);
      StepPreservesWellFormed(s0, cfg, AsWritten, anchorDraw, directionDraw);
      if |rooms| == 0 {
        PlaceOriginRoom();
        CountTick();
        outcome := PlacedOrigin;
        return;
      }
      if |open| == 0 {
        return Failed(NoOpenRooms);
      }
      var connectingRoom := RandomItem(open, anchorDraw).item.value;
      ghost var a := Anchor(s0, anchorDraw);
      assert connectingRoom.id == a && connectingRoom == rooms[a];
      var available := GetAvailableConnections(connectingRoom);
      var pick := RandomItem(available, directionDraw);
      if pick.item.None? {
        return Failed(ConnectionNotSpecified);
      }
      AvailableExactlyFree(connectingRoom.connections);
      outcome := TryRoom(connectingRoom, pick.item.value);
    }
  }
}
