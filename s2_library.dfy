/** The S2 cell library as seen from server/algorithms/src/s2.rs.
 *
 *  Cell ids are 64-bit values. The library calls the core makes (a point's
 *  leaf cell, a cell's parent, its cube face, its four edge neighbours, its
 *  centre and its corner vertices) are foreign code: the model receives them
 *  as one value of type `Library`, so every operation is proved for every
 *  library that has these shapes. */
module S2Library {

  newtype u64 = x: int | 0 <= x < 0x1_0000_0000_0000_0000
  newtype u8 = x: int | 0 <= x < 0x100

  type CellId = u64

  /** A point in degrees; floating point is abstracted to exact reals. */
  datatype Point = Point(lat: real, lng: real)

  /** An index into a cell's four edge neighbours. */
  type Slot = i: int | 0 <= i < 4

  /** A fixed-size array of four elements, `[T; 4]` in the source. */
  datatype Quad<T> = Quad(q0: T, q1: T, q2: T, q3: T) {
    function At(i: Slot): T {
      if i == 0 then q0 else if i == 1 then q1 else if i == 2 then q2 else q3
    }
  }

  datatype Library = Library(
    leaf: Point -> CellId,                  // CellID::from(LatLng): the leaf cell holding a point
    parent: (CellId, nat) -> CellId,        // CellID::parent(level)
    face: CellId -> nat,                    // CellID::face()
    edgeNeighbors: CellId -> Quad<CellId>,  // CellID::edge_neighbors()
    center: CellId -> Point,                // Cell::center() in degrees
    vertices: CellId -> Quad<Point>)        // Cell::vertex(0..4) in degrees

  /** The cell at `level` holding a point: `CellID::from(point).parent(level)`. */
  function CellAt(s2: Library, p: Point, level: nat): CellId {
    s2.parent(s2.leaf(p), level)
  }

  /** Every 64-bit cell id; finite, so it bounds any set of ids. */
  ghost const AllIds: set<CellId> := set x: int | 0 <= x < 0x1_0000_0000_0000_0000 :: x as CellId

  lemma InAllIds(c: CellId)
    ensures c in AllIds
  {
    assert c == (c as int) as CellId;
  }

  /** The conditions under which traversal panics (s2.rs:163-166, 199-207). */
  datatype Violation = InvalidFace(face: nat) | InvalidBand(face: nat, band: int)

  /** A computation that either yields a value or aborts with a panic. */
  datatype Result<T> = Ok(value: T) | Fatal(violation: Violation)

  datatype Option<T> = None | Some(value: T)
}
