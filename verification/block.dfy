/** The per-block configuration and conversions of Block.ts: the grid extent,
    the clamp applied by the `type` setter, the mapping between grid cells and
    pixel positions, and the touch hit box. */
module Block {

  /** Number of grid columns. */
  const Columns: int := 9
  /** Number of grid rows; row 0 is the bottom row. */
  const Rows: int := 10
  /** Side of one block, in pixels. */
  const Size: int := 80
  /** Number of sprite keys, which is also the number of block types. */
  const TypeCount: int := 5

  function Dist(a: int, b: int): nat
  {
    if a < b then b - a else a - b
  }

  /** The `type` setter: any integer is clamped into [0, TypeCount - 1].
      The stored type is the in-range value nearest to the one assigned. */
  function ClampType(value: int): (t: int)
    ensures 0 <= t < TypeCount
    ensures forall k :: 0 <= k < TypeCount ==> Dist(t, value) <= Dist(k, value)
  {
    if value < 0 then 0
    else if value > TypeCount - 1 then TypeCount - 1
    else value
  }

  /** Clamping leaves in-range types alone, so clamping twice is clamping once,
      and it never reverses the order of two values. */
  lemma ClampTypeFacts(value: int, other: int)
    ensures 0 <= value < TypeCount ==> ClampType(value) == value
    ensures ClampType(ClampType(value)) == ClampType(value)
    ensures value <= other ==> ClampType(value) <= ClampType(other)
  {
  }

  /** A pixel position (Vec2/Vec3 without the z component). */
  datatype Vec2 = Vec2(x: real, y: real)

  /** Where the grid manager puts the node of the block of cell (col, row). */
  function Placement(col: int, row: int): Vec2
  {
    Vec2((col * Size) as real, (row * Size) as real)
  }

  /** `gridPosition`: the node position divided by the block size. */
  function GridPosition(node: Vec2): Vec2
  {
    Vec2(node.x / Size as real, node.y / Size as real)
  }

  /** A node placed for cell (col, row) reports exactly (col, row), and a node
      whose reported position is integral sits exactly at that cell's placement. */
  lemma GridPositionInvertsPlacement(col: int, row: int, node: Vec2)
    ensures GridPosition(Placement(col, row)) == Vec2(col as real, row as real)
    ensures GridPosition(node) == Vec2(col as real, row as real) ==> node == Placement(col, row)
  {
  }

  /** The local point of a touch: the touch location minus the node position
      (the block's anchor is its lower-left corner). */
  function LocalPoint(touch: Vec2, node: Vec2): Vec2
  {
    Vec2(touch.x - node.x, touch.y - node.y)
  }

  /** The hit-box test of the touch handler: both ends of both ranges included. */
  predicate InHitBox(local: Vec2)
  {
    0.0 <= local.x <= Size as real && 0.0 <= local.y <= Size as real
  }

  predicate Touches(touch: Vec2, node: Vec2)
  {
    InHitBox(LocalPoint(touch, node))
  }

  /** A touch hits the block of cell (col, row) iff it lies in the closed square
      of side Size whose lower-left corner is the cell's placement; because both
      ends are included, a touch on the edge shared by two horizontally
      neighbouring blocks hits both of them. */
  lemma TouchSquare(touch: Vec2, col: int, row: int)
    ensures Touches(touch, Placement(col, row)) <==>
              (col * Size) as real <= touch.x <= ((col + 1) * Size) as real &&
              (row * Size) as real <= touch.y <= ((row + 1) * Size) as real
    ensures touch.x == ((col + 1) * Size) as real && (row * Size) as real <= touch.y <= ((row + 1) * Size) as real
            ==> Touches(touch, Placement(col, row)) && Touches(touch, Placement(col + 1, row))
  {
  }
}
