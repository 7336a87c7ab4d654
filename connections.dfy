/** The connection slots of a room: for each direction either no
    neighbour yet (the source's null) or the id of the neighbour there. */
module Connections {
  import opened Geometry
  import opened Optional

  /** Room identity: unique within a generation run. */
  type RoomId = nat

  datatype Slots = Slots(north: Option<RoomId>, east: Option<RoomId>, south: Option<RoomId>, west: Option<RoomId>)
  {
    function Get(d: Direction): Option<RoomId> {
      match d
      case N => north
      case E => east
      case S => south
      case W => west
    }

    /** The slot for `d` now holds `v`; every other slot is as before. */
    function Set(d: Direction, v: Option<RoomId>): (c: Slots)
      ensures c.Get(d) == v
      ensures forall d' :: d' != d ==> c.Get(d') == Get(d')
    {
      match d
      case N => this.(north := v)
      case E => this.(east := v)
      case S => this.(south := v)
      case W => this.(west := v)
    }
  }

  /** A freshly created room: every slot empty. */
  const Unconnected: Slots := Slots(None, None, None, None)

  /** The room still has an empty slot. */
  ghost predicate HasFree(c: Slots) {
    exists d :: c.Get(d) == None
  }

  /** The empty slots among `ds`, kept in the order of `ds`. */
  function FreeAmong(c: Slots, ds: seq<Direction>): seq<Direction> {
    if ds == [] then []
    else FreeAmong(c, ds[..|ds| - 1]) + (if c.Get(ds[|ds| - 1]) == None then [ds[|ds| - 1]] else [])
  }

  /** The list of free connections of a room, in slot order. */
  function Available(c: Slots): seq<Direction> {
    FreeAmong(c, Directions)
  }

  lemma {:induction false} FreeAmongMembers(c: Slots, ds: seq<Direction>)
    ensures forall d :: d in FreeAmong(c, ds) <==> d in ds && c.Get(d) == None
  {
    if ds != [] {
      FreeAmongMembers(c, ds[..|ds| - 1]);
      assert ds == ds[..|ds| - 1] + [ds[|ds| - 1]];
    }
  }

  /** Each direction of `s` comes strictly after the previous one in slot order. */
  predicate InSlotOrder(s: seq<Direction>) {
    forall i, j :: 0 <= i < j < |s| ==> Rank(s[i]) < Rank(s[j])
  }

  lemma {:induction false} FreeAmongOrdered(c: Slots, ds: seq<Direction>)
    requires InSlotOrder(ds)
    ensures InSlotOrder(FreeAmong(c, ds))
  {
    if ds != [] {
      var init := ds[..|ds| - 1];
      FreeAmongOrdered(c, init);
      FreeAmongMembers(c, init);
      var r := FreeAmong(c, ds);
      var p := FreeAmong(c, init);
      assert r == p + (if c.Get(ds[|ds| - 1]) == None then [ds[|ds| - 1]] else []);
      forall i, j | 0 <= i < j < |r|
        ensures Rank(r[i]) < Rank(r[j])
      {
        if j >= |p| {
          assert r[i] == p[i] && p[i] in init;
          var k :| 0 <= k < |init| && init[k] == p[i];
          assert init[k] == ds[k] && r[j] == ds[|ds| - 1];
        } else {
          assert r[i] == p[i] && r[j] == p[j];
        }
      }
    }
  }

  /** getAvailableConnections lists exactly the empty slots, each once, in
      slot order, and is non-empty exactly when the room has a free slot. */
  lemma AvailableExactlyFree(c: Slots)
    ensures forall d :: d in Available(c) <==> c.Get(d) == None
    ensures InSlotOrder(Available(c))
    ensures HasFree(c) <==> Available(c) != []
  {
    assert Available(c) == FreeAmong(c, Directions);
    FreeAmongMembers(c, Directions);
    FreeAmongOrdered(c, Directions);
    forall d ensures d in Directions { assert Directions[Rank(d)] == d; }
    if HasFree(c) {
      var d :| c.Get(d) == None;
      assert d in Available(c);
    }
    if Available(c) != [] {
      assert c.Get(Available(c)[0]) == None;
    }
  }

  /** getAvailableConnections spelled out: the free slots among north, east,
      south and west, in that order. */
  lemma AvailableListed(c: Slots)
    ensures Available(c) == (if c.north == None then [N] else []) + (if c.east == None then [E] else [])
                            + (if c.south == None then [S] else []) + (if c.west == None then [W] else [])
  {
    var free := (d: Direction) => if c.Get(d) == None then [d] else [];
    assert Directions[..3] == [N, E, S] && [N, E, S][..2] == [N, E] && [N, E][..1] == [N] && [N][..0] == [];
    assert FreeAmong(c, [N]) == free(N);
    assert FreeAmong(c, [N, E]) == free(N) + free(E);
    assert FreeAmong(c, [N, E, S]) == free(N) + free(E) + free(S);
    assert FreeAmong(c, Directions) == free(N) + free(E) + free(S) + free(W);
  }

  /** A new room that has just been linked in one direction keeps the other
      three slots free. */
  lemma LinkedNewRoomHasFree(d: Direction, id: RoomId)
    ensures forall d' :: Unconnected.Set(d, Some(id)).Get(d') == None <==> d' != d
    ensures HasFree(Unconnected.Set(d, Some(id)))
  {
    assert Unconnected.Set(d, Some(id)).Get(Opposite(d)) == None;
  }
}
