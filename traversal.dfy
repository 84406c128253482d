/** Face-aware stepping between edge-adjacent cells (`Dir`, `Traverse` in
 *  s2.rs). A compass direction is mapped to one of the four edge-neighbour
 *  slots by a table that depends on the cube face and, on the polar faces 2
 *  and 5, on a 45-degree band of the cell centre's longitude. */
module Traversal {
  import opened S2Library

  datatype Dir = N | E | S | W

  /** The compass order used to state the rotation law: N=0, E=1, S=2, W=3. */
  function Index(d: Dir): int {
    match d
    case N => 0
    case E => 1
    case S => 2
    case W => 3
  }

  function Floor(x: real): int {
    x.Floor
  }

  function Ceil(x: real): int {
    -((-x).Floor)
  }

  /** A float-to-`i8` cast saturates at the type's bounds. */
  function SaturateI8(x: int): int {
    if x < -128 then -128 else if x > 127 then 127 else x
  }

  /** The longitude band: lng/45 rounded down, or up when below -3. */
  function Band(lng: real): int {
    var q := lng / 45.0;
    SaturateI8(if q < -3.0 then Ceil(q) else Floor(q))
  }

  /** The direction table of `traverse_mut`: which neighbour slot a compass
   *  direction selects on a face and in a band, or the panic it hits. */
  function SlotFor(face: nat, band: int, d: Dir): (r: Result<Slot>)
    ensures r.Ok? <==> Rotation(face, band).Some?
    ensures r.Ok? ==> r.value == (Rotation(face, band).value - Index(d)) % 4
    ensures r.Fatal? ==> r.violation == if face <= 5 then InvalidBand(face, band) else InvalidFace(face)
  {
    match face
    case 0 | 1 =>
      Ok(match d case N => 2 case E => 1 case S => 0 case W => 3)
    case 2 =>
      if band == -1 || band == 0 then Ok(match d case N => 1 case E => 0 case S => 3 case W => 2)
      else if band == 1 || band == 2 then Ok(match d case N => 2 case E => 1 case S => 0 case W => 3)
      else if band == -2 then Ok(match d case N => 0 case E => 3 case S => 2 case W => 1)
      else if band == -3 || band == 3 then Ok(match d case N => 3 case E => 2 case S => 1 case W => 0)
      else Fatal(InvalidBand(2, band))
    case 3 | 4 =>
      Ok(match d case N => 3 case E => 2 case S => 1 case W => 0)
    case 5 =>
      if band == -1 || band == 0 then Ok(match d case N => 2 case E => 1 case S => 0 case W => 3)
      else if band == 1 || band == 2 then Ok(match d case N => 1 case E => 0 case S => 3 case W => 2)
      else if band == -2 then Ok(match d case N => 3 case E => 2 case S => 1 case W => 0)
      else if band == -3 || band == 3 then Ok(match d case N => 0 case E => 3 case S => 2 case W => 1)
      else Fatal(InvalidBand(5, band))
    case _ =>
      Fatal(InvalidFace(face))
  }

  /** Every row of the table is a rotation: the slot is (k - Index(d)) mod 4
   *  for one offset k per face and band. This is the offset, where defined. */
  function Rotation(face: nat, band: int): Option<int> {
    if face == 0 || face == 1 then Some(2)
    else if face == 3 || face == 4 then Some(3)
    else if face == 2 then
      if band == -1 || band == 0 then Some(1)
      else if band == 1 || band == 2 then Some(2)
      else if band == -2 then Some(0)
      else if band == -3 || band == 3 then Some(3)
      else None
    else if face == 5 then
      if band == -1 || band == 0 then Some(2)
      else if band == 1 || band == 2 then Some(1)
      else if band == -2 then Some(3)
      else if band == -3 || band == 3 then Some(0)
      else None
    else None
  }

  /** One step from a cell in a compass direction (one iteration of the loop
   *  in `traverse_mut`). */
  function Step(s2: Library, c: CellId, d: Dir): (r: Result<CellId>)
    ensures r.Ok? <==> Rotation(s2.face(c), Band(s2.center(c).lng)).Some?
    ensures r.Ok? ==> r.value == s2.edgeNeighbors(c).At(
      (Rotation(s2.face(c), Band(s2.center(c).lng)).value - Index(d)) % 4)
  {
    var neighbors := s2.edgeNeighbors(c);
    var band := Band(s2.center(c).lng);
    match SlotFor(s2.face(c), band, d)
    case Ok(slot) => Ok(neighbors.At(slot))
    case Fatal(v) => Fatal(v)
  }

  /** `count` single steps in one direction, stopping at the first panic. */
  function Traversed(s2: Library, c: CellId, d: Dir, count: nat): Result<CellId>
    decreases count
  {
    if count == 0 then Ok(c)
    else match Step(s2, c, d)
      case Fatal(v) => Fatal(v)
      case Ok(next) => Traversed(s2, next, d, count - 1)
  }

  /** Continue a traversal that may already have panicked. */
  function Then(s2: Library, r: Result<CellId>, d: Dir, count: nat): Result<CellId> {
    match r
    case Fatal(v) => Fatal(v)
    case Ok(c) => Traversed(s2, c, d, count)
  }

  /** `traverse` / `traverse_mut`: a loop of `count` single steps. */
  method Traverse(s2: Library, c: CellId, d: Dir, count: u8) returns (r: Result<CellId>)
    ensures r == Traversed(s2, c, d, count as nat)
  {
    var cell := c;
    for i := 0 to count as nat
      invariant Traversed(s2, c, d, i) == Ok(cell)
    {
      TraversedAdditive(s2, c, d, i, 1);
      var next := Step(s2, cell, d);
      if next.Fatal? {
        TraversedAdditive(s2, c, d, i + 1, count as nat - i - 1);
        return Fatal(next.violation);
      }
      cell := next.value;
    }
    return Ok(cell);
  }

  /** Stepping a+b times is stepping a times, then b more; a panic in the
   *  first part is the panic of the whole. */
  lemma {:induction false} TraversedAdditive(s2: Library, c: CellId, d: Dir, a: nat, b: nat)
    ensures Traversed(s2, c, d, a + b) == Then(s2, Traversed(s2, c, d, a), d, b)
    decreases a
  {
    if a > 0 {
      match Step(s2, c, d)
      case Fatal(_) =>
      case Ok(next) => TraversedAdditive(s2, next, d, a - 1, b);
    }
  }

  /** Whatever the face and band, the four directions select four distinct
   *  slots, and opposite directions select slots two apart. */
  lemma SlotsDistinct(face: nat, band: int)
    requires SlotFor(face, band, N).Ok?
    ensures forall d1, d2 :: d1 != d2 ==> SlotFor(face, band, d1).value != SlotFor(face, band, d2).value
    ensures SlotFor(face, band, S).value == (SlotFor(face, band, N).value + 2) % 4
    ensures SlotFor(face, band, W).value == (SlotFor(face, band, E).value + 2) % 4
  {
    var k := Rotation(face, band).value;
    forall d1, d2 | d1 != d2
      ensures SlotFor(face, band, d1).value != SlotFor(face, band, d2).value
    {
      assert SlotFor(face, band, d1).value == (k - Index(d1)) % 4;
      assert SlotFor(face, band, d2).value == (k - Index(d2)) % 4;
    }
  }

  /** Faces 0, 1, 3 and 4 ignore the longitude; faces 0/1 send N to slot 2
   *  and faces 3/4 send N to slot 3. */
  lemma EquatorialFacesIgnoreBand(face: nat, band1: int, band2: int, d: Dir)
    requires face in {0, 1, 3, 4}
    ensures SlotFor(face, band1, d) == SlotFor(face, band2, d)
    ensures SlotFor(face, band1, N) == Ok(if face <= 1 then 2 else 3)
  {
  }

  /** Strictly inside (-180, 180) the band lies in -3..3, which every polar
   *  table covers. */
  lemma BandInterior(lng: real)
    requires -180.0 < lng < 180.0
    ensures -3 <= Band(lng) <= 3
  {
    var q := lng / 45.0;
    assert -4.0 < q < 4.0;
    if q < -3.0 {
      assert -q.Floor == 4 || -q.Floor == 3 by {
        assert 3.0 < -q < 4.0;
      }
    }
  }

  /** At exactly 180 and -180 the band is 4 and -4: on faces 2 and 5 these
   *  reach the panicking arm. */
  lemma BandAntimeridian()
    ensures Band(180.0) == 4 && Band(-180.0) == -4
    ensures SlotFor(2, Band(180.0), N) == Fatal(InvalidBand(2, 4))
    ensures SlotFor(5, Band(-180.0), N) == Fatal(InvalidBand(5, -4))
  {
    assert (180.0 / 45.0).Floor == 4;
    assert (-(-180.0 / 45.0)).Floor == 4;
  }

  /** The library shape under which traversal never panics: every face in
   *  0..5 and every cell centre strictly inside (-180, 180) longitude. */
  ghost predicate Regular(s2: Library) {
    forall c :: s2.face(c) <= 5 && -180.0 < s2.center(c).lng < 180.0
  }

  /** A step panics exactly when the face is out of range or the band is
   *  one the table does not list; it never panics on a regular library. */
  lemma StepPanics(s2: Library, c: CellId, d: Dir)
    ensures s2.face(c) > 5 ==> Step(s2, c, d) == Fatal(InvalidFace(s2.face(c)))
    ensures s2.face(c) <= 5 && -180.0 < s2.center(c).lng < 180.0 ==> Step(s2, c, d).Ok?
  {
    if s2.face(c) <= 5 && -180.0 < s2.center(c).lng < 180.0 {
      BandInterior(s2.center(c).lng);
    }
  }

  lemma {:induction false} TraversedRegular(s2: Library, c: CellId, d: Dir, count: nat)
    requires Regular(s2)
    ensures Traversed(s2, c, d, count).Ok?
    decreases count
  {
    if count > 0 {
      StepPanics(s2, c, d);
      TraversedRegular(s2, Step(s2, c, d).value, d, count - 1);
    }
  }
}
