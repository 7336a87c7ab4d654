/** Plane geometry of the room layout: integer rectangles, the four
    connection directions, where a neighbour of a room is placed, and when
    two rooms collide. The y axis grows downwards, as on a canvas, so North
    is towards smaller y. */
module Geometry {

  datatype Point = Point(x: int, y: int)

  /** An axis-aligned room outline, given by its top-left and bottom-right corners. */
  datatype Rect = Rect(topLeft: Point, bottomRight: Point)

  predicate ValidRect(r: Rect) {
    r.topLeft.x < r.bottomRight.x && r.topLeft.y < r.bottomRight.y
  }

  function Width(r: Rect): int { r.bottomRight.x - r.topLeft.x }

  function Height(r: Rect): int { r.bottomRight.y - r.topLeft.y }

  /** The four connection slots of a room. */
  datatype Direction = N | E | S | W

  /** The slots in the order the room record declares them, which is the
      order in which its keys are enumerated. */
  const Directions: seq<Direction> := [N, E, S, W]

  /** Position of a direction in that order. */
  function Rank(d: Direction): (i: nat)
    ensures i < |Directions| && Directions[i] == d
  {
    match d
    case N => 0
    case E => 1
    case S => 2
    case W => 3
  }

  predicate IsVertical(d: Direction) {
    d == N || d == S
  }

  /** The connection table: the slot a neighbour uses to point back. */
  function Opposite(d: Direction): (o: Direction)
    ensures o != d
    ensures IsVertical(o) == IsVertical(d)
  {
    match d
    case N => S
    case E => W
    case S => N
    case W => E
  }

  lemma OppositeIsInvolution(d: Direction)
    ensures Opposite(Opposite(d)) == d
  {
  }

  /** The generation parameters: target room count, starting outline,
      separation between neighbouring rooms and the fixed room size. */
  datatype Config = Config(numRooms: nat, start: Rect, separation: int, roomWidth: int, roomHeight: int)
  {
    /** r has the configured room size. */
    predicate Sized(r: Rect) {
      Width(r) == roomWidth && Height(r) == roomHeight
    }

    predicate WellFormed() {
      roomWidth > 0 && roomHeight > 0 && separation >= 0 && Sized(start)
    }
  }

  /** The constants the generator runs with. */
  const SourceConfig: Config := Config(12, Rect(Point(600, 300), Point(700, 400)), 20, 100, 100)

  lemma SourceConfigWellFormed()
    ensures SourceConfig.WellFormed()
  {
  }

  /** Distance between the side of `anchor` facing `d` and the facing side of `r`. */
  function Gap(anchor: Rect, r: Rect, d: Direction): int {
    match d
    case N => anchor.topLeft.y - r.bottomRight.y
    case S => r.topLeft.y - anchor.bottomRight.y
    case E => r.topLeft.x - anchor.bottomRight.x
    case W => anchor.topLeft.x - r.bottomRight.x
  }

  /** Outline of the room attached to `anchor` in direction `d`: it keeps the
      anchor's span across `d`, has the configured extent along `d`, and
      lies exactly `separation` away from the anchor's side facing `d`. */
  function SetRoomCoords(anchor: Rect, d: Direction, cfg: Config): (r: Rect)
    ensures IsVertical(d) ==>
              r.topLeft.x == anchor.topLeft.x && r.bottomRight.x == anchor.bottomRight.x &&
              Height(r) == cfg.roomHeight
    ensures !IsVertical(d) ==>
              r.topLeft.y == anchor.topLeft.y && r.bottomRight.y == anchor.bottomRight.y &&
              Width(r) == cfg.roomWidth
    ensures Gap(anchor, r, d) == cfg.separation
  {
    match d
    case N =>
      Rect(Point(anchor.topLeft.x, anchor.topLeft.y - cfg.separation - cfg.roomHeight),
           Point(anchor.bottomRight.x, anchor.topLeft.y - cfg.separation))
    case E =>
      Rect(Point(anchor.bottomRight.x + cfg.separation, anchor.topLeft.y),
           Point(anchor.bottomRight.x + cfg.separation + cfg.roomWidth, anchor.bottomRight.y))
    case S =>
      Rect(Point(anchor.topLeft.x, anchor.bottomRight.y + cfg.separation),
           Point(anchor.bottomRight.x, anchor.bottomRight.y + cfg.separation + cfg.roomHeight))
    case W =>
      Rect(Point(anchor.topLeft.x - cfg.separation - cfg.roomWidth, anchor.topLeft.y),
           Point(anchor.topLeft.x - cfg.separation, anchor.bottomRight.y))
  }

  /** A room of the configured size attached to a room of the configured
      size has the configured size, and so is a proper rectangle. */
  lemma SetRoomCoordsSized(anchor: Rect, d: Direction, cfg: Config)
    requires cfg.WellFormed() && cfg.Sized(anchor)
    ensures cfg.Sized(SetRoomCoords(anchor, d, cfg))
    ensures ValidRect(SetRoomCoords(anchor, d, cfg))
  {
  }

  /** Any proper anchor yields a proper rectangle once both room sizes are
      positive: the span across `d` is the anchor's, the extent along `d`
      is the configured one. */
  lemma SetRoomCoordsValid(anchor: Rect, d: Direction, cfg: Config)
    requires ValidRect(anchor) && cfg.roomWidth > 0 && cfg.roomHeight > 0
    ensures ValidRect(SetRoomCoords(anchor, d, cfg))
  {
  }

  /** Attaching in `d` and then in the opposite direction leads back to the anchor. */
  lemma SetRoomCoordsInverse(anchor: Rect, d: Direction, cfg: Config)
    requires cfg.Sized(anchor)
    ensures SetRoomCoords(SetRoomCoords(anchor, d, cfg), Opposite(d), cfg) == anchor
  {
  }

  /** The starting room of the source with a neighbour to the East. */
  lemma SetRoomCoordsEastOfStart()
    ensures SetRoomCoords(SourceConfig.start, E, SourceConfig) == Rect(Point(720, 300), Point(820, 400))
  {
  }

  /** The collision test between a new room `a` and a placed room `b`: the
      open intervals of the two rooms meet on both axes. */
  predicate Overlaps(a: Rect, b: Rect) {
    (a.topLeft.x < b.bottomRight.x && b.topLeft.x < a.bottomRight.x) &&
    (a.topLeft.y < b.bottomRight.y && b.topLeft.y < a.bottomRight.y)
  }

  /** The unit cell with top-left corner (x, y) lies inside r. */
  predicate CoversCell(r: Rect, x: int, y: int) {
    r.topLeft.x <= x < r.bottomRight.x && r.topLeft.y <= y < r.bottomRight.y
  }

  /** Two proper rectangles collide exactly when they share a unit cell. */
  lemma OverlapsIffSharedCell(a: Rect, b: Rect)
    requires ValidRect(a) && ValidRect(b)
    ensures Overlaps(a, b) <==> exists x, y :: CoversCell(a, x, y) && CoversCell(b, x, y)
  {
    if Overlaps(a, b) {
      var x := if a.topLeft.x < b.topLeft.x then b.topLeft.x else a.topLeft.x;
      var y := if a.topLeft.y < b.topLeft.y then b.topLeft.y else a.topLeft.y;
      assert CoversCell(a, x, y) && CoversCell(b, x, y);
    }
  }

  lemma OverlapsSymmetric(a: Rect, b: Rect)
    ensures Overlaps(a, b) == Overlaps(b, a)
  {
  }

  /** Rooms that only share an edge, or lie apart, do not collide. */
  lemma SeparatedRoomsDoNotOverlap(a: Rect, b: Rect)
    requires a.bottomRight.x <= b.topLeft.x || b.bottomRight.x <= a.topLeft.x ||
             a.bottomRight.y <= b.topLeft.y || b.bottomRight.y <= a.topLeft.y
    ensures !Overlaps(a, b)
  {
  }

  /** A proper rectangle collides with an identical one. */
  lemma SameRectOverlaps(r: Rect)
    requires ValidRect(r)
    ensures Overlaps(r, r)
  {
  }

  /** With a non-negative separation, the new room never collides with its
      own anchor, so the anchor alone never causes a skipped tick. */
  lemma SetRoomCoordsClearOfAnchor(anchor: Rect, d: Direction, cfg: Config)
    requires cfg.separation >= 0
    ensures !Overlaps(SetRoomCoords(anchor, d, cfg), anchor)
  {
  }
}
