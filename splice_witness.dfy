/** A concrete run of the generator, with the source's own configuration,
    in which the removal of a sealed anchor takes the wrong room out of the
    open list, and a later tick then throws. Draws (0,0), (0,1), (1,0),
    (1,0), (1,0) create the origin room 0, then room 1 east of it, then
    rooms 2, 3 and 4 north, east and south of room 1. */
module SpliceWitness {
  import opened Geometry
  import opened Optional
  import opened Connections
  import opened OpenList
  import opened RoomGraph

  function Box(x0: int, y0: int, x1: int, y1: int): Rect {
    Rect(Point(x0, y0), Point(x1, y1))
  }

  // The outlines of rooms 0 to 4.
  const B0 := Box(600, 300, 700, 400)
  const B1 := Box(720, 300, 820, 400)
  const B2 := Box(720, 180, 820, 280)
  const B3 := Box(840, 300, 940, 400)
  const B4 := Box(720, 420, 820, 520)

  // Rooms 0, 2, 3 and 4 once linked to room 1.
  const R0 := RoomView(0, B0, Unconnected.Set(E, Some(1)))
  const R2 := RoomView(2, B2, Unconnected.Set(S, Some(1)))
  const R3 := RoomView(3, B3, Unconnected.Set(W, Some(1)))
  const R4 := RoomView(4, B4, Unconnected.Set(N, Some(1)))

  // The slots of room 1 as its neighbours arrive.
  const West1 := Unconnected.Set(W, Some(0))
  const North1 := West1.Set(N, Some(2))
  const East1 := North1.Set(E, Some(3))
  const Sealed1 := East1.Set(S, Some(4))

  // The state after each of the five ticks.
  const S1 := GenState([RoomView(0, B0, Unconnected)], [0], 1, false, B0)
  const S2 := GenState([R0, RoomView(1, B1, West1)], [0, 1], 2, false, B1)
  const S3 := GenState([R0, RoomView(1, B1, North1), R2], [0, 1, 2], 3, false, B2)
  const S4 := GenState([R0, RoomView(1, B1, East1), R2, R3], [0, 1, 2, 3], 4, false, B3)
  const S5 := GenState([R0, RoomView(1, B1, Sealed1), R2, R3, R4], [1, 2, 3, 4], 5, false, B4)

  lemma FirstTick()
    ensures Step(Initial(SourceConfig), SourceConfig, AsWritten, 0, 0) == Tick(S1, PlacedOrigin)
  {
  }

  lemma SecondTick()
    ensures Step(S1, SourceConfig, AsWritten, 0, 1) == Tick(S2, Placed(1, 0, E))
  {
    AvailableListed(Unconnected);
    assert SetRoomCoords(B0, E, SourceConfig) == B1;
    assert !Overlaps(B1, B0);
    assert R0.slots.Get(N) == None && West1.Get(N) == None;
  }

  lemma ThirdTick()
    ensures Step(S2, SourceConfig, AsWritten, 1, 0) == Tick(S3, Placed(2, 1, N))
  {
    AvailableListed(West1);
    assert SetRoomCoords(B1, N, SourceConfig) == B2;
    assert !Overlaps(B2, B0) && !Overlaps(B2, B1);
    assert North1.Get(E) == None && R2.slots.Get(N) == None;
  }

  lemma FourthTick()
    ensures Step(S3, SourceConfig, AsWritten, 1, 0) == Tick(S4, Placed(3, 1, E))
  {
    AvailableListed(North1);
    assert SetRoomCoords(B1, E, SourceConfig) == B3;
    assert !Overlaps(B3, B0) && !Overlaps(B3, B1) && !Overlaps(B3, B2);
    assert East1.Get(S) == None && R3.slots.Get(N) == None;
  }

  /** The placement of room 4 south of room 1 seals room 1, and the
      removal as written then takes room 0, the head of the open list. */
  lemma FifthPlacement()
    ensures Place(S4, SourceConfig, AsWritten, 1, S) == S5
  {
    var link := Link(S4, SourceConfig, AsWritten, 1, S);
    assert SetRoomCoords(B1, S, SourceConfig) == B4;
    assert link.rooms == S5.rooms;
    LinkedNewRoomHasFree(N, 1);
    assert HasFree(link.rooms[4].slots);
    AvailableListed(Sealed1);
    AvailableExactlyFree(Sealed1);
    assert !HasFree(link.rooms[1].slots);
    assert link.open == SpliceAtFound([0, 1, 2, 3, 4]) == [1, 2, 3, 4];
  }

  /** The fifth tick fills the last free slot of room 1. */
  lemma FifthTick()
    ensures Step(S4, SourceConfig, AsWritten, 1, 0) == Tick(S5, Placed(4, 1, S))
  {
    AvailableListed(East1);
    assert SetRoomCoords(B1, S, SourceConfig) == B4;
    assert !Overlaps(B4, B0) && !Overlaps(B4, B1) && !Overlaps(B4, B2) && !Overlaps(B4, B3);
    FifthPlacement();
  }

  /** After the fifth tick the sealed room 1 is still offered as an anchor,
      while room 0, which has three free slots, is no longer offered. */
  lemma SealedAnchorStaysOpen()
    ensures !HasFree(S5.rooms[1].slots) && 1 in S5.open
    ensures HasFree(S5.rooms[0].slots) && 0 !in S5.open
  {
    AvailableListed(Sealed1);
    AvailableExactlyFree(Sealed1);
    assert R0.slots.Get(N) == None;
  }

  /** A sixth tick whose anchor draw picks the sealed room 1 finds no free
      slot and throws; the state is left as it was. */
  lemma SixthTickThrows()
    ensures Step(S5, SourceConfig, AsWritten, 0, 0) == Tick(S5, Failed(ConnectionNotSpecified))
  {
    AvailableListed(Sealed1);
  }
}
