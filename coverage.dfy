/** `cell_coverage` (s2.rs:402-422): the level-`level` cell holding a point,
 *  alone when `size` is 1, else the set of the size-by-size grid around it. */
module Coverage {
  import opened S2Library
  import opened Traversal
  import opened GridBuilder

  function Elements(cells: seq<CellId>): set<CellId> {
    set c | c in cells
  }

  /** A sequence has at most as many distinct elements as it has elements. */
  lemma {:induction false} ElementsBound(cells: seq<CellId>)
    ensures |Elements(cells)| <= |cells|
    decreases |cells|
  {
    if cells != [] {
      var init := cells[..|cells| - 1];
      ElementsBound(init);
      assert Elements(cells) == Elements(init) + {cells[|cells| - 1]};
    }
  }

  method CellCoverage(s2: Library, p: Point, size: u8, level: u8) returns (r: Result<set<CellId>>)
    ensures size == 1 ==> r == Ok({CellAt(s2, p, level as nat)})
    ensures size != 1 ==> r == match Grid(s2, CellAt(s2, p, level as nat), size)
                               case Fatal(v) => Fatal(v)
                               case Ok(cells) => Ok(Elements(cells))
    ensures r.Ok? ==> |r.value| <= size as nat * size as nat
    ensures size == 0 ==> r == Ok({})
  {
    var center := CellAt(s2, p, level as nat);
    if size == 1 {
      return Ok({center});
    }
    var neighbors := BuildGrid(s2, center, size);
    if neighbors.Fatal? {
      return Fatal(neighbors.violation);
    }
    var cells := neighbors.value;
    var covered: set<CellId> := {};
    for i := 0 to |cells|
      invariant covered == Elements(cells[..i])
    {
      assert cells[..i + 1] == cells[..i] + [cells[i]];
      covered := covered + {cells[i]};
    }
    assert cells[..|cells|] == cells;
    GridShape(s2, center, size);
    ElementsBound(cells);
    GridEmpty(s2, center);
    return Ok(covered);
  }
}
