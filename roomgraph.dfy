/** The generation state as values, and one tick of the generator as a
    function of it. The imperative generator is proved to follow `Step`;
    the lemmas here state what a tick guarantees. */
module RoomGraph {
  import opened Geometry
  import opened Optional
  import opened Connections
  import opened Choice
  import opened OpenList

  /** A room: its id, its outline and its connection slots. */
  datatype RoomView = RoomView(id: RoomId, rect: Rect, slots: Slots)

  /** Everything the generator keeps between ticks: all rooms in creation
      order, the ids of the rooms offered as anchors (the list of rooms with
      available connections), the tick counter, whether the interval has been
      cleared, and the last outline computed. */
  datatype GenState = GenState(rooms: seq<RoomView>, open: seq<RoomId>, iterations: nat, cleared: bool, roomCoords: Rect)

  /** The two errors a tick throws. */
  datatype TickError =
    | NoOpenRooms            // no room with available connections is left
    | ConnectionNotSpecified // the anchor had no free slot, so no direction was chosen

  datatype Outcome =
    | PlacedOrigin
    | Placed(room: RoomId, anchor: RoomId, direction: Direction)
    | Skipped
    | Failed(error: TickError)

  datatype Tick = Tick(next: GenState, outcome: Outcome)

  /** How a sealed anchor leaves the open list: as the source does it (the
      head of the list goes), or as it evidently means to (the anchor goes). */
  datatype Removal = AsWritten | Intended

  function Initial(cfg: Config): GenState {
    GenState([], [], 0, false, cfg.start)
  }

  /** The neighbour recorded in slot `d` of room `k` exists, points back
      through the opposite slot, and sits where `SetRoomCoords` puts it. */
  ghost predicate LinkedBack(rooms: seq<RoomView>, k: nat, d: Direction, cfg: Config)
    requires k < |rooms| && rooms[k].slots.Get(d).Some?
  {
    var j := rooms[k].slots.Get(d).value;
    j < |rooms| &&
    rooms[j].slots.Get(Opposite(d)) == Some(k) &&
    rooms[j].rect == SetRoomCoords(rooms[k].rect, d, cfg)
  }

  ghost predicate LinksMutual(rooms: seq<RoomView>, cfg: Config) {
    forall k, d :: 0 <= k < |rooms| && rooms[k].slots.Get(d).Some? ==> LinkedBack(rooms, k, d, cfg)
  }

  predicate OpenInRange(s: GenState) {
    forall k :: 0 <= k < |s.open| ==> s.open[k] < |s.rooms|
  }

  /** The invariant of a generation run. */
  ghost predicate WellFormed(s: GenState, cfg: Config) {
    (forall k :: 0 <= k < |s.rooms| ==> s.rooms[k].id == k && cfg.Sized(s.rooms[k].rect)) &&
    LinksMutual(s.rooms, cfg) &&
    OpenInRange(s) &&
    Distinct(s.open) &&
    cfg.Sized(s.roomCoords) &&
    s.iterations == |s.rooms| &&
    (s.cleared <==> 0 < |s.rooms| && cfg.numRooms <= |s.rooms|) &&
    (s.rooms == [] ==> s.open == [] && s.roomCoords == cfg.start)
  }

  lemma InitialWellFormed(cfg: Config)
    requires cfg.WellFormed()
    ensures WellFormed(Initial(cfg), cfg)
  {
  }

  /** isCollision: the outline meets some room of the open list. */
  predicate Collides(rect: Rect, s: GenState)
    requires OpenInRange(s)
  {
    exists k :: 0 <= k < |s.open| && Overlaps(rect, s.rooms[s.open[k]].rect)
  }

  /** Add the room at `rect` as a neighbour of room `a` in direction `d`,
      linking the two both ways. */
  function Attach(rooms: seq<RoomView>, a: nat, d: Direction, rect: Rect): seq<RoomView>
    requires a < |rooms|
  {
    var id := |rooms|;
    rooms[a := rooms[a].(slots := rooms[a].slots.Set(d, Some(id)))]
      + [RoomView(id, rect, Unconnected.Set(Opposite(d), Some(a)))]
  }

  /** The counter update that ends a tick which placed a room. */
  function Counted(s: GenState, cfg: Config): GenState {
    s.(iterations := s.iterations + 1, cleared := s.cleared || cfg.numRooms <= s.iterations + 1)
  }

  function DropSealed(open: seq<RoomId>, anchor: RoomId, removal: Removal): seq<RoomId> {
    match removal
    case AsWritten => SpliceAtFound(open)
    case Intended => RemoveFirst(open, anchor)
  }

  /** A committed placement before the tick is counted: the new room is
      linked to anchor `a` through slot `d`, appended to the rooms, appended
      to the open list if it has a free slot, and the anchor leaves the open
      list if it has none left. */
  ghost function Link(s: GenState, cfg: Config, removal: Removal, a: RoomId, d: Direction): GenState
    requires a < |s.rooms|
  {
    var id: RoomId := |s.rooms|;
    var rect := SetRoomCoords(s.rooms[a].rect, d, cfg);
    var rooms := Attach(s.rooms, a, d, rect);
    var open: seq<RoomId> := if HasFree(rooms[id].slots) then s.open + [id] else s.open;
    var open: seq<RoomId> := if HasFree(rooms[a].slots) then open else DropSealed(open, a, removal);
    GenState(rooms, open, s.iterations, s.cleared, rect)
  }

  /** A placement does not depend on the previously computed outline. */
  lemma LinkIgnoresCoords(s: GenState, cfg: Config, removal: Removal, a: RoomId, d: Direction, r: Rect)
    requires a < |s.rooms|
    ensures Link(s.(roomCoords := r), cfg, removal, a, d) == Link(s, cfg, removal, a, d)
  {
  }

  /** A committed placement, counted. */
  ghost function Place(s: GenState, cfg: Config, removal: Removal, a: RoomId, d: Direction): GenState
    requires a < |s.rooms|
  {
    Counted(Link(s, cfg, removal, a, d), cfg)
  }

  /** The room that `anchorDraw` selects from a non-empty open list. */
  function Anchor(s: GenState, anchorDraw: nat): (a: RoomId)
    requires OpenInRange(s) && s.open != []
    ensures a in s.open && a < |s.rooms|
  {
    RandomItem(s.open, anchorDraw).item.value
  }

  /** The end of a tick once anchor `a` and its free slot `d` are chosen:
      the outline next to the anchor is recorded; it is skipped if it meets
      a room of the open list, and placed otherwise. */
  ghost function Attempt(s: GenState, cfg: Config, removal: Removal, a: RoomId, d: Direction): Tick
    requires OpenInRange(s) && a < |s.rooms|
  {
    var rect := SetRoomCoords(s.rooms[a].rect, d, cfg);
    if Collides(rect, s) then
      Tick(s.(roomCoords := rect), Skipped)
    else
      Tick(Place(s, cfg, removal, a, d), Placed(|s.rooms|, a, d))
  }

  /** One tick of generateRoom, with `anchorDraw` and `directionDraw` in
      place of the two random choices. */
  ghost function Step(s: GenState, cfg: Config, removal: Removal, anchorDraw: nat, directionDraw: nat): Tick
    requires OpenInRange(s)
  {
    if |s.rooms| == 0 then
      Tick(Counted(s.(rooms := [RoomView(0, s.roomCoords, Unconnected)], open := s.open + [0]), cfg), PlacedOrigin)
    else if |s.open| == 0 then
      Tick(s, Failed(NoOpenRooms))
    else
      var a := Anchor(s, anchorDraw);
      var pick := RandomItem(Available(s.rooms[a].slots), directionDraw);
      if pick.item.None? then
        Tick(s, Failed(ConnectionNotSpecified))
      else
        Attempt(s, cfg, removal, a, pick.item.value)
  }

  /** Linking a free slot of a room to a new neighbour placed next to it
      keeps every link mutual and geometrically consistent. */
  lemma AttachKeepsLinks(rooms: seq<RoomView>, a: nat, d: Direction, cfg: Config)
    requires a < |rooms| && rooms[a].slots.Get(d) == None
    requires forall k :: 0 <= k < |rooms| ==> rooms[k].id == k && cfg.Sized(rooms[k].rect)
    requires LinksMutual(rooms, cfg)
    ensures LinksMutual(Attach(rooms, a, d, SetRoomCoords(rooms[a].rect, d, cfg)), cfg)
  {
    var id := |rooms|;
    var rect := SetRoomCoords(rooms[a].rect, d, cfg);
    var r := Attach(rooms, a, d, rect);
    forall k, e | 0 <= k < |r| && r[k].slots.Get(e).Some?
      ensures LinkedBack(r, k, e, cfg)
    {
      if k == id {
        assert e == Opposite(d) && r[k].slots.Get(e) == Some(a);
        OppositeIsInvolution(d);
        SetRoomCoordsInverse(rooms[a].rect, d, cfg);
      } else if k == a && e == d {
        assert r[k].slots.Get(e) == Some(id);
        OppositeIsInvolution(d);
      } else {
        assert r[k].slots.Get(e) == rooms[k].slots.Get(e);
        assert LinkedBack(rooms, k, e, cfg);
        var j := rooms[k].slots.Get(e).value;
        if j == a {
          // a's slot `d` was empty, so nothing pointed at `a` from there.
          assert Opposite(e) != d;
        }
      }
    }
  }

  lemma DropSealedKeepsDistinct(open: seq<RoomId>, a: RoomId, removal: Removal)
    requires Distinct(open)
    ensures Distinct(DropSealed(open, a, removal))
    ensures forall y :: y in DropSealed(open, a, removal) ==> y in open
  {
    SpliceAtFoundKeepsDistinct(open);
    RemoveFirstRemovesOnlyIt(open, a);
  }

  /** Dropping a sealed anchor that is not the last entry keeps the last
      entry and shortens the list by one. */
  lemma DropSealedKeepsLast(open: seq<RoomId>, a: RoomId, removal: Removal)
    requires Distinct(open) && a in open && open[|open| - 1] != a
    ensures open[|open| - 1] in DropSealed(open, a, removal)
    ensures |DropSealed(open, a, removal)| == |open| - 1
  {
    match removal
    case AsWritten =>
      assert open[1..][|open| - 2] == open[|open| - 1];
    case Intended =>
      RemoveFirstRemovesOnlyIt(open, a);
  }

  /** Appending a room id that is not yet listed keeps the list duplicate-free. */
  lemma AppendNewKeepsDistinct(open: seq<RoomId>, id: RoomId)
    requires Distinct(open) && forall k :: 0 <= k < |open| ==> open[k] < id
    ensures Distinct(open + [id])
  {
  }

  /** The open list after a placement holds only existing rooms, each once. */
  lemma PlaceKeepsOpenList(s: GenState, cfg: Config, removal: Removal, a: RoomId, d: Direction)
    requires OpenInRange(s) && Distinct(s.open) && a < |s.rooms|
    ensures var t := Place(s, cfg, removal, a, d);
            OpenInRange(t) && Distinct(t.open)
  {
    var id: RoomId := |s.rooms|;
    var t := Place(s, cfg, removal, a, d);
    var rooms := Attach(s.rooms, a, d, SetRoomCoords(s.rooms[a].rect, d, cfg));
    var open: seq<RoomId> := if HasFree(rooms[id].slots) then s.open + [id] else s.open;
    AppendNewKeepsDistinct(s.open, id);
    assert Distinct(open);
    assert forall y :: y in open ==> y < |t.rooms|;
    DropSealedKeepsDistinct(open, a, removal);
    assert t.open == if HasFree(rooms[a].slots) then open else DropSealed(open, a, removal);
    forall k | 0 <= k < |t.open|
      ensures t.open[k] < |t.rooms|
    {
      assert t.open[k] in open;
    }
  }

  lemma PlaceWellFormed(s: GenState, cfg: Config, removal: Removal, a: RoomId, d: Direction)
    requires cfg.WellFormed() && WellFormed(s, cfg)
    requires a < |s.rooms| && s.rooms[a].slots.Get(d) == None
    ensures WellFormed(Place(s, cfg, removal, a, d), cfg)
  {
    SetRoomCoordsSized(s.rooms[a].rect, d, cfg);
    AttachKeepsLinks(s.rooms, a, d, cfg);
    PlaceKeepsOpenList(s, cfg, removal, a, d);
  }

  /** Every tick keeps the invariant of the run. */
  lemma StepPreservesWellFormed(s: GenState, cfg: Config, removal: Removal, anchorDraw: nat, directionDraw: nat)
    requires cfg.WellFormed() && WellFormed(s, cfg)
    ensures WellFormed(Step(s, cfg, removal, anchorDraw, directionDraw).next, cfg)
  {
    if |s.rooms| > 0 && |s.open| > 0 {
      var a := Anchor(s, anchorDraw);
      var pick := RandomItem(Available(s.rooms[a].slots), directionDraw);
      if pick.item.Some? {
        var d := pick.item.value;
        AvailableExactlyFree(s.rooms[a].slots);
        SetRoomCoordsSized(s.rooms[a].rect, d, cfg);
        PlaceWellFormed(s, cfg, removal, a, d);
      }
    }
  }

  /** The first tick places the origin room at the starting outline and
      offers it as the only anchor. */
  lemma StepOrigin(s: GenState, cfg: Config, removal: Removal, anchorDraw: nat, directionDraw: nat)
    requires WellFormed(s, cfg) && s.rooms == []
    ensures var t := Step(s, cfg, removal, anchorDraw, directionDraw);
            t.outcome == PlacedOrigin &&
            t.next.rooms == [RoomView(0, cfg.start, Unconnected)] &&
            t.next.open == [0] &&
            t.next.iterations == 1
  {
  }

  /** A tick that throws changes nothing; a tick that collides changes
      nothing but the last computed outline, which collides with a room of
      the open list other than the anchor. The errors occur exactly when the
      open list is empty, or when the chosen anchor has no free slot. */
  lemma StepFailOrSkip(s: GenState, cfg: Config, removal: Removal, anchorDraw: nat, directionDraw: nat)
    requires cfg.WellFormed() && WellFormed(s, cfg)
    ensures var t := Step(s, cfg, removal, anchorDraw, directionDraw);
            (t.outcome == Failed(NoOpenRooms) <==> s.rooms != [] && s.open == []) &&
            (t.outcome == Failed(ConnectionNotSpecified) <==>
               s.rooms != [] && s.open != [] && !HasFree(s.rooms[Anchor(s, anchorDraw)].slots)) &&
            (t.outcome.Failed? ==> t.next == s) &&
            (t.outcome.Skipped? ==>
               t.next == s.(roomCoords := t.next.roomCoords) &&
               exists k :: 0 <= k < |s.open| && s.open[k] != Anchor(s, anchorDraw) &&
                           Overlaps(t.next.roomCoords, s.rooms[s.open[k]].rect))
  {
    if s.rooms != [] && s.open != [] {
      var a := Anchor(s, anchorDraw);
      AvailableExactlyFree(s.rooms[a].slots);
      var pick := RandomItem(Available(s.rooms[a].slots), directionDraw);
      if pick.item.Some? {
        var rect := SetRoomCoords(s.rooms[a].rect, pick.item.value, cfg);
        SetRoomCoordsClearOfAnchor(s.rooms[a].rect, pick.item.value, cfg);
        if Collides(rect, s) {
          var k :| 0 <= k < |s.open| && Overlaps(rect, s.rooms[s.open[k]].rect);
          assert s.open[k] != a;
        }
      }
    }
  }

  /** A tick whose drawn anchor has a free slot tries exactly the drawn
      candidate: the outline next to the drawn anchor at the drawn slot. It
      skips, recording that outline, exactly when the outline collides with
      the open list; otherwise it places the next room at the drawn anchor
      and slot. */
  lemma StepDrawnCandidate(s: GenState, cfg: Config, removal: Removal, anchorDraw: nat, directionDraw: nat)
    requires cfg.WellFormed() && WellFormed(s, cfg)
    requires s.rooms != [] && s.open != [] && HasFree(s.rooms[Anchor(s, anchorDraw)].slots)
    ensures var t := Step(s, cfg, removal, anchorDraw, directionDraw);
            var a := Anchor(s, anchorDraw);
            var avail := Available(s.rooms[a].slots);
            avail != [] &&
            var d := avail[directionDraw % |avail|];
            var rect := SetRoomCoords(s.rooms[a].rect, d, cfg);
            (t.outcome == Skipped <==> Collides(rect, s)) &&
            (t.outcome.Skipped? ==> t.next.roomCoords == rect) &&
            (!t.outcome.Skipped? ==> t.outcome == Placed(|s.rooms|, a, d))
  {
    AvailableExactlyFree(s.rooms[Anchor(s, anchorDraw)].slots);
  }

  /** What a placement does to the rooms: one more room, linked both ways
      to the anchor; no other room changes. */
  lemma PlaceRooms(s: GenState, cfg: Config, removal: Removal, a: RoomId, d: Direction)
    requires a < |s.rooms|
    ensures var r := Place(s, cfg, removal, a, d).rooms;
            var id := |s.rooms|;
            |r| == id + 1 &&
            r[id].rect == SetRoomCoords(s.rooms[a].rect, d, cfg) &&
            r[a].slots == s.rooms[a].slots.Set(d, Some(id)) &&
            r[id].slots == Unconnected.Set(Opposite(d), Some(a)) &&
            (forall k :: 0 <= k < id && k != a ==> r[k] == s.rooms[k])
  {
  }

  /** What a placement does to the open list: the new room is in it, and it
      grows by one unless the anchor is now sealed. */
  lemma PlaceOpen(s: GenState, cfg: Config, removal: Removal, a: RoomId, d: Direction)
    requires a < |s.rooms| && a in s.open && OpenInRange(s) && Distinct(s.open)
    ensures var t := Place(s, cfg, removal, a, d);
            var id := |s.rooms|;
            id in t.open &&
            |t.open| == (if HasFree(t.rooms[a].slots) then |s.open| + 1 else |s.open|)
  {
    var id: RoomId := |s.rooms|;
    LinkedNewRoomHasFree(Opposite(d), a);
    PlaceRooms(s, cfg, removal, a, d);
    var t := Place(s, cfg, removal, a, d);
    var open: seq<RoomId> := s.open + [id];
    assert HasFree(t.rooms[id].slots);
    AppendNewKeepsDistinct(s.open, id);
    DropSealedKeepsLast(open, a, removal);
  }

  /** A placing tick: the new room gets the next id and sits at the free
      slot `d` of an open anchor, clear of every room in the open list; the
      two rooms are linked both ways and no other room changes; the new room
      joins the open list, which grows by one unless the anchor is now sealed,
      in which case it keeps its length. */
  lemma StepPlaced(s: GenState, cfg: Config, removal: Removal, anchorDraw: nat, directionDraw: nat)
    requires cfg.WellFormed() && WellFormed(s, cfg)
    ensures var t := Step(s, cfg, removal, anchorDraw, directionDraw);
            t.outcome.Placed? ==>
              var id, a, d := t.outcome.room, t.outcome.anchor, t.outcome.direction;
              id == |s.rooms| && a in s.open && s.rooms[a].slots.Get(d) == None &&
              |t.next.rooms| == |s.rooms| + 1 &&
              t.next.rooms[id].rect == SetRoomCoords(s.rooms[a].rect, d, cfg) &&
              (forall k :: 0 <= k < |s.open| ==> !Overlaps(t.next.rooms[id].rect, s.rooms[s.open[k]].rect)) &&
              t.next.rooms[a].slots == s.rooms[a].slots.Set(d, Some(id)) &&
              t.next.rooms[id].slots == Unconnected.Set(Opposite(d), Some(a)) &&
              (forall k :: 0 <= k < |s.rooms| && k != a ==> t.next.rooms[k] == s.rooms[k]) &&
              id in t.next.open &&
              |t.next.open| == (if HasFree(t.next.rooms[a].slots) then |s.open| + 1 else |s.open|)
  {
    var t := Step(s, cfg, removal, anchorDraw, directionDraw);
    if t.outcome.Placed? {
      var a, d := t.outcome.anchor, t.outcome.direction;
      AvailableExactlyFree(s.rooms[a].slots);
      assert t.next == Place(s, cfg, removal, a, d);
      PlaceRooms(s, cfg, removal, a, d);
      PlaceOpen(s, cfg, removal, a, d);
    }
  }

  /** With the removal as written, a placing tick appends the new room and,
      when the anchor is sealed, drops the head of the open list. */
  lemma StepAsWrittenOpenList(s: GenState, cfg: Config, anchorDraw: nat, directionDraw: nat)
    requires cfg.WellFormed() && WellFormed(s, cfg)
    ensures var t := Step(s, cfg, AsWritten, anchorDraw, directionDraw);
            t.outcome.Placed? ==>
              t.next.open == if HasFree(t.next.rooms[t.outcome.anchor].slots)
                             then s.open + [t.outcome.room]
                             else s.open[1..] + [t.outcome.room]
  {
    var t := Step(s, cfg, AsWritten, anchorDraw, directionDraw);
    if t.outcome.Placed? {
      LinkedNewRoomHasFree(Opposite(t.outcome.direction), t.outcome.anchor);
      assert (s.open + [t.outcome.room])[1..] == s.open[1..] + [t.outcome.room];
    }
  }

  /** The tick counter and the room count grow together: by one on a
      placement, not at all otherwise. */
  lemma StepRoomCount(s: GenState, cfg: Config, removal: Removal, anchorDraw: nat, directionDraw: nat)
    requires cfg.WellFormed() && WellFormed(s, cfg)
    ensures var t := Step(s, cfg, removal, anchorDraw, directionDraw);
            var placed := t.outcome.PlacedOrigin? || t.outcome.Placed?;
            |t.next.rooms| == |s.rooms| + (if placed then 1 else 0) &&
            t.next.iterations == s.iterations + (if placed then 1 else 0)
  {
    StepPlaced(s, cfg, removal, anchorDraw, directionDraw);
    StepFailOrSkip(s, cfg, removal, anchorDraw, directionDraw);
  }

  /** The number of rooms at which the interval is cleared: the origin alone
      already reaches a target of zero. */
  function Target(cfg: Config): nat {
    if cfg.numRooms == 0 then 1 else cfg.numRooms
  }

  /** The interval driver: one tick per pair of draws, until the interval
      has been cleared. A thrown error does not clear the interval. */
  ghost function Run(s: GenState, cfg: Config, draws: seq<(nat, nat)>): GenState
    requires cfg.WellFormed() && WellFormed(s, cfg)
    decreases |draws|
  {
    if draws == [] || s.cleared then s
    else
      StepPreservesWellFormed(s, cfg, AsWritten, draws[0].0, draws[0].1);
      Run(Step(s, cfg, AsWritten, draws[0].0, draws[0].1).next, cfg, draws[1..])
  }

  /** However many ticks run, generation never goes past the target room
      count, and once the interval is cleared exactly that many rooms exist. */
  lemma {:induction false} RunStopsAtTarget(s: GenState, cfg: Config, draws: seq<(nat, nat)>)
    requires cfg.WellFormed() && WellFormed(s, cfg) && |s.rooms| <= Target(cfg)
    ensures WellFormed(Run(s, cfg, draws), cfg)
    ensures |Run(s, cfg, draws).rooms| <= Target(cfg)
    ensures Run(s, cfg, draws).cleared ==> |Run(s, cfg, draws).rooms| == Target(cfg)
    decreases |draws|
  {
    if draws != [] && !s.cleared {
      var t := Step(s, cfg, AsWritten, draws[0].0, draws[0].1);
      StepPreservesWellFormed(s, cfg, AsWritten, draws[0].0, draws[0].1);
      StepRoomCount(s, cfg, AsWritten, draws[0].0, draws[0].1);
      RunStopsAtTarget(t.next, cfg, draws[1..]);
    }
  }

  /** The open list is exactly the set of rooms with a free slot. */
  ghost predicate OpenExact(s: GenState) {
    forall k :: 0 <= k < |s.rooms| ==> (k in s.open <==> HasFree(s.rooms[k].slots))
  }

  /** A placement with the intended removal keeps the open list exact: the
      new room joins it (it has three free slots) and the anchor leaves it
      exactly when its last free slot has just been used. */
  lemma PlaceKeepsOpenExact(s: GenState, cfg: Config, a: RoomId, d: Direction)
    requires a < |s.rooms| && OpenInRange(s) && Distinct(s.open) && OpenExact(s)
    ensures OpenExact(Place(s, cfg, Intended, a, d))
  {
    var id: RoomId := |s.rooms|;
    var t := Place(s, cfg, Intended, a, d);
    PlaceRooms(s, cfg, Intended, a, d);
    LinkedNewRoomHasFree(Opposite(d), a);
    var open: seq<RoomId> := s.open + [id];
    AppendNewKeepsDistinct(s.open, id);
    RemoveFirstRemovesOnlyIt(open, a);
    assert HasFree(t.rooms[id].slots);
    assert t.open == if HasFree(t.rooms[a].slots) then open else RemoveFirst(open, a);
    forall k | 0 <= k < |t.rooms|
      ensures k in t.open <==> HasFree(t.rooms[k].slots)
    {
      if k == a && HasFree(t.rooms[a].slots) {
        var e :| t.rooms[a].slots.Get(e) == None;
        assert s.rooms[a].slots.Get(e) == None;
      } else if k != a && k != id {
        assert k in t.open <==> k in s.open;
      }
    }
  }

  /** With the removal the source means, every tick keeps the open list
      exactly the set of rooms that still have a free slot. */
  lemma IntendedKeepsOpenExact(s: GenState, cfg: Config, anchorDraw: nat, directionDraw: nat)
    requires cfg.WellFormed() && WellFormed(s, cfg) && OpenExact(s)
    ensures OpenExact(Step(s, cfg, Intended, anchorDraw, directionDraw).next)
  {
    var t := Step(s, cfg, Intended, anchorDraw, directionDraw);
    if s.rooms == [] {
      assert Unconnected.Get(N) == None;
    } else if t.outcome.Placed? {
      PlaceKeepsOpenExact(s, cfg, t.outcome.anchor, t.outcome.direction);
    }
  }

  /** With the removal as written, a placement that seals an anchor which
      is not at the head of the open list leaves the sealed anchor in the
      list and removes the head instead. */
  lemma PlaceKeepsSealedAnchor(s: GenState, cfg: Config, a: RoomId, d: Direction)
    requires a < |s.rooms| && OpenInRange(s) && Distinct(s.open) && a in s.open && s.open[0] != a
    requires !HasFree(Place(s, cfg, AsWritten, a, d).rooms[a].slots)
    ensures var t := Place(s, cfg, AsWritten, a, d);
            a in t.open && s.open[0] !in t.open
  {
    var id: RoomId := |s.rooms|;
    var t := Place(s, cfg, AsWritten, a, d);
    PlaceRooms(s, cfg, AsWritten, a, d);
    LinkedNewRoomHasFree(Opposite(d), a);
    assert HasFree(t.rooms[id].slots);
    var open: seq<RoomId> := s.open + [id];
    assert t.open == SpliceAtFound(open) == open[1..];
    assert s.open == [s.open[0]] + s.open[1..];
    assert open[1..] == s.open[1..] + [id];
    assert a in s.open[1..] && s.open[0] !in s.open[1..];
  }

  /** The same at the level of a tick of generateRoom. */
  lemma AsWrittenKeepsSealedAnchor(s: GenState, cfg: Config, anchorDraw: nat, directionDraw: nat)
    requires cfg.WellFormed() && WellFormed(s, cfg)
    ensures var t := Step(s, cfg, AsWritten, anchorDraw, directionDraw);
            t.outcome.Placed? && !HasFree(t.next.rooms[t.outcome.anchor].slots) && s.open[0] != t.outcome.anchor ==>
              t.outcome.anchor in t.next.open && s.open[0] !in t.next.open
  {
    var t := Step(s, cfg, AsWritten, anchorDraw, directionDraw);
    if t.outcome.Placed? && !HasFree(t.next.rooms[t.outcome.anchor].slots) && s.open[0] != t.outcome.anchor {
      PlaceKeepsSealedAnchor(s, cfg, t.outcome.anchor, t.outcome.direction);
    }
  }
}
