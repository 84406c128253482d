/** `BuildGrid::build_grid` (s2.rs:217-234): a size-by-size block of cells
 *  around an anchor, in row-major order from the south-west corner. */
module GridBuilder {
  import opened S2Library
  import opened Traversal

  /** How far the corner lies west and south of the anchor: `floor(size / 2)`. */
  function Half(size: u8): nat {
    size as nat / 2
  }

  /** The south-west corner the rows start from. */
  function Corner(s2: Library, anchor: CellId, size: u8): Result<CellId> {
    Then(s2, Traversed(s2, anchor, W, Half(size)), S, Half(size))
  }

  /** The first `k` cells of a row starting at `c`, walking east one cell at a
   *  time, together with the last of them (the inner loop's `h_cell`). */
  function RowFrom(s2: Library, c: CellId, k: nat): Result<(seq<CellId>, CellId)>
    requires k >= 1
    decreases k
  {
    if k == 1 then Ok(([c], c))
    else match RowFrom(s2, c, k - 1)
      case Fatal(v) => Fatal(v)
      case Ok((cells, last)) =>
        (match Step(s2, last, E)
         case Fatal(v) => Fatal(v)
         case Ok(next) => Ok((cells + [next], next)))
  }

  /** The cells of the first `k` rows of a grid whose rows hold `size` cells,
   *  and the cell the next row starts from (the outer loop's `starting_cell`,
   *  stepped north after every row, the last one included). */
  function Rows(s2: Library, start: CellId, k: nat, size: nat): Result<(seq<CellId>, CellId)>
    requires k <= size
    decreases k
  {
    if k == 0 then Ok(([], start))
    else match Rows(s2, start, k - 1, size)
      case Fatal(v) => Fatal(v)
      case Ok((cells, first)) =>
        (match RowFrom(s2, first, size)
         case Fatal(v) => Fatal(v)
         case Ok((row, _)) =>
           (match Step(s2, first, N)
            case Fatal(v) => Fatal(v)
            case Ok(up) => Ok((cells + row, up))))
  }

  /** What `build_grid` returns, or the panic it hits. */
  function Grid(s2: Library, anchor: CellId, size: u8): Result<seq<CellId>> {
    match Corner(s2, anchor, size)
    case Fatal(v) => Fatal(v)
    case Ok(start) =>
      (match Rows(s2, start, size as nat, size as nat)
       case Fatal(v) => Fatal(v)
       case Ok((cells, _)) => Ok(cells))
  }

  method BuildGrid(s2: Library, anchor: CellId, size: u8) returns (r: Result<seq<CellId>>)
    ensures r == Grid(s2, anchor, size)
  {
    var toStart := size / 2;
    var west := Traverse(s2, anchor, W, toStart);
    if west.Fatal? {
      return Fatal(west.violation);
    }
    var corner := Traverse(s2, west.value, S, toStart);
    if corner.Fatal? {
      return Fatal(corner.violation);
    }
    var n := size as nat;
    var startingCell := corner.value;
    var neighbors: seq<CellId> := [];
    for row := 0 to n
      invariant Rows(s2, corner.value, row, n) == Ok((neighbors, startingCell))
    {
      var built := BuildRow(s2, startingCell, n);
      if built.Fatal? {
        RowsSticky(s2, corner.value, row + 1, n);
        return Fatal(built.violation);
      }
      var north := Traverse(s2, startingCell, N, 1);
      StepOnce(s2, startingCell, N);
      if north.Fatal? {
        RowsSticky(s2, corner.value, row + 1, n);
        return Fatal(north.violation);
      }
      neighbors := neighbors + built.value.0;
      startingCell := north.value;
    }
    return Ok(neighbors);
  }

  /** The inner loop of `build_grid`: push the row's first cell, then step east
   *  and push, `size - 1` times. */
  method BuildRow(s2: Library, first: CellId, size: nat) returns (r: Result<(seq<CellId>, CellId)>)
    requires size >= 1
    ensures r == RowFrom(s2, first, size)
  {
    var hCell := first;
    var row := [hCell];
    for col := 1 to size
      invariant RowFrom(s2, first, col) == Ok((row, hCell))
    {
      var east := Traverse(s2, hCell, E, 1);
      StepOnce(s2, hCell, E);
      if east.Fatal? {
        RowFromSticky(s2, first, col + 1, size);
        return Fatal(east.violation);
      }
      hCell := east.value;
      row := row + [hCell];
    }
    return Ok((row, hCell));
  }

  lemma StepOnce(s2: Library, c: CellId, d: Dir)
    ensures Traversed(s2, c, d, 1) == Step(s2, c, d)
  {
  }

  lemma {:induction false} RowFromSticky(s2: Library, c: CellId, j: nat, k: nat)
    requires 1 <= j <= k && RowFrom(s2, c, j).Fatal?
    ensures RowFrom(s2, c, k) == Fatal(RowFrom(s2, c, j).violation)
    decreases k
  {
    if j < k {
      RowFromSticky(s2, c, j, k - 1);
    }
  }

  lemma {:induction false} RowsSticky(s2: Library, start: CellId, j: nat, size: nat)
    requires j <= size && Rows(s2, start, j, size).Fatal?
    ensures Rows(s2, start, size, size) == Fatal(Rows(s2, start, j, size).violation)
    decreases size - j
  {
    if j < size {
      RowsSticky(s2, start, j + 1, size);
    }
  }

  /** A row of `k` cells holds the cells 0..k-1 steps east of its start. */
  lemma {:induction false} RowFromShape(s2: Library, c: CellId, k: nat)
    requires k >= 1 && RowFrom(s2, c, k).Ok?
    ensures var (cells, last) := RowFrom(s2, c, k).value;
      |cells| == k && last == cells[k - 1] &&
      forall j :: 0 <= j < k ==> Traversed(s2, c, E, j) == Ok(cells[j])
    decreases k
  {
    if k > 1 {
      RowFromShape(s2, c, k - 1);
      var (cells, last) := RowFrom(s2, c, k - 1).value;
      TraversedAdditive(s2, c, E, k - 2, 1);
      StepOnce(s2, last, E);
    }
  }

  /** Cell `i * size + j` of `cells` is `j` steps east of the cell `i` steps
   *  north of `start`, for every row `i < k`. */
  ghost predicate LaidOut(s2: Library, start: CellId, cells: seq<CellId>, k: nat, size: nat)
    requires |cells| == k * size
  {
    forall i, j :: 0 <= i < k && 0 <= j < size ==>
      i * size + j < |cells| && Then(s2, Traversed(s2, start, N, i), E, j) == Ok(cells[i * size + j])
  }

  lemma RowIndex(i: nat, j: nat, k: nat, size: nat)
    requires i < k && j < size
    ensures i * size + j < k * size
  {
    assert (i + 1) * size <= k * size;
  }

  lemma NextRowLength(k: nat, size: nat)
    requires k >= 1
    ensures (k - 1) * size + size == k * size
  {
  }

  /** Appending a row that starts `k` steps north keeps the layout. */
  lemma LaidOutSnoc(s2: Library, start: CellId, before: seq<CellId>, first: CellId, row: seq<CellId>, k: nat, size: nat)
    requires |before| == k * size && LaidOut(s2, start, before, k, size)
    requires Traversed(s2, start, N, k) == Ok(first)
    requires |row| == size && forall j :: 0 <= j < size ==> Traversed(s2, first, E, j) == Ok(row[j])
    ensures |before + row| == (k + 1) * size && LaidOut(s2, start, before + row, k + 1, size)
  {
    var cells := before + row;
    forall i, j | 0 <= i < k + 1 && 0 <= j < size
      ensures i * size + j < |cells| && Then(s2, Traversed(s2, start, N, i), E, j) == Ok(cells[i * size + j])
    {
      RowIndex(i, j, k + 1, size);
      if i < k {
        RowIndex(i, j, k, size);
        assert cells[i * size + j] == before[i * size + j];
      } else {
        assert cells[i * size + j] == row[j];
      }
    }
  }

  /** After `k` rows: `k * size` cells, laid out row by row, and the next
   *  start is `k` steps north. */
  lemma {:induction false} RowsShape(s2: Library, start: CellId, k: nat, size: nat)
    requires k <= size && Rows(s2, start, k, size).Ok?
    ensures |Rows(s2, start, k, size).value.0| == k * size
    ensures Traversed(s2, start, N, k) == Ok(Rows(s2, start, k, size).value.1)
    ensures LaidOut(s2, start, Rows(s2, start, k, size).value.0, k, size)
    decreases k
  {
    if k > 0 {
      RowsShape(s2, start, k - 1, size);
      var (before, first) := Rows(s2, start, k - 1, size).value;
      var (row, _) := RowFrom(s2, first, size).value;
      RowFromShape(s2, first, size);
      TraversedAdditive(s2, start, N, k - 1, 1);
      StepOnce(s2, first, N);
      assert Rows(s2, start, k, size).value.0 == before + row;
      LaidOutSnoc(s2, start, before, first, row, k - 1, size);
    }
  }

  /** `build_grid` returns exactly size*size cells, and the cell in row `i`,
   *  column `j` is reached from the anchor by `h` steps west, `h` south, `i`
   *  north and `j` east, where h = size / 2. */
  lemma GridShape(s2: Library, anchor: CellId, size: u8)
    requires Grid(s2, anchor, size).Ok?
    ensures |Grid(s2, anchor, size).value| == size as nat * size as nat
    ensures LaidOut(s2, Corner(s2, anchor, size).value, Grid(s2, anchor, size).value, size as nat, size as nat)
    ensures Corner(s2, anchor, size) == Then(s2, Traversed(s2, anchor, W, size as nat / 2), S, size as nat / 2)
  {
    var start := Corner(s2, anchor, size).value;
    RowsShape(s2, start, size as nat, size as nat);
  }

  /** A grid of size 0 is empty and never panics. */
  lemma GridEmpty(s2: Library, anchor: CellId)
    ensures Grid(s2, anchor, 0) == Ok([])
  {
  }

  /** A grid of size 1 that does not panic is the anchor alone, the set
   *  `cell_coverage` builds directly for size 1. */
  lemma GridOfOne(s2: Library, anchor: CellId)
    requires Grid(s2, anchor, 1).Ok?
    ensures Grid(s2, anchor, 1) == Ok([anchor])
  {
    GridShape(s2, anchor, 1);
    var cells := Grid(s2, anchor, 1).value;
    assert Corner(s2, anchor, 1) == Ok(anchor);
    assert Then(s2, Traversed(s2, anchor, N, 0), E, 0) == Ok(cells[0 * 1 + 0]);
    assert Then(s2, Traversed(s2, anchor, N, 0), E, 0) == Ok(anchor);
    assert |cells| == 1 && cells[0] == anchor;
    assert cells == [anchor];
  }

  lemma {:induction false} RowFromRegular(s2: Library, c: CellId, k: nat)
    requires Regular(s2) && k >= 1
    ensures RowFrom(s2, c, k).Ok?
    decreases k
  {
    if k > 1 {
      RowFromRegular(s2, c, k - 1);
      StepPanics(s2, RowFrom(s2, c, k - 1).value.1, E);
    }
  }

  lemma {:induction false} RowsRegular(s2: Library, start: CellId, k: nat, size: nat)
    requires Regular(s2) && k <= size
    ensures Rows(s2, start, k, size).Ok?
    decreases k
  {
    if k > 0 {
      RowsRegular(s2, start, k - 1, size);
      var first := Rows(s2, start, k - 1, size).value.1;
      RowFromRegular(s2, first, size);
      StepPanics(s2, first, N);
    }
  }

  /** On a library whose faces are 0..5 and whose centres lie strictly inside
   *  (-180, 180), `build_grid` never panics. */
  lemma GridRegular(s2: Library, anchor: CellId, size: u8)
    requires Regular(s2)
    ensures Grid(s2, anchor, size).Ok?
  {
    TraversedRegular(s2, anchor, W, Half(size));
    TraversedRegular(s2, Traversed(s2, anchor, W, Half(size)).value, S, Half(size));
    RowsRegular(s2, Corner(s2, anchor, size).value, size as nat, size as nat);
  }
}
