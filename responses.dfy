/** The records sent to clients (s2.rs:18-22, 255-318): a cell id as a
 *  decimal string with the cell's four corners, built for the first cells of
 *  a covering or for a list of id strings. */
module Responses {
  import opened S2Library
  import opened Decimal

  datatype S2Response = S2Response(id: string, coords: Quad<Point>)

  /** The cap `get_cells` applies to a covering. */
  const MaxCells: nat := 100000

  function Min(a: nat, b: nat): nat {
    if a <= b then a else b
  }

  /** `get_client_polygon`: the id rendered in decimal, and the corners. */
  function ClientPolygon(s2: Library, c: CellId): (r: S2Response)
    ensures Parse(r.id) == Some(c) && Canonical(r.id)
    ensures r.coords == s2.vertices(c)
  {
    ParseRender(c);
    S2Response(Render(c as nat), s2.vertices(c))
  }

  /** The `map_while` of `get_cells` from position `i` of the covering on:
   *  records while the position is below the cap, nothing from there on. */
  function MapWhileUnderCap(s2: Library, covering: seq<CellId>, i: nat): (r: seq<S2Response>)
    requires i <= |covering| && i <= MaxCells
    ensures |r| == Min(|covering|, MaxCells) - i
    ensures forall k :: 0 <= k < |r| ==> r[k] == ClientPolygon(s2, covering[i + k])
    decreases |covering| - i
  {
    if i == |covering| then []
    else if i < MaxCells then [ClientPolygon(s2, covering[i])] + MapWhileUnderCap(s2, covering, i + 1)
    else []
  }

  /** `get_cells` after the covering: one record for each of the first
   *  min(n, 100000) cells, in covering order; later cells are dropped. */
  function GetCells(s2: Library, covering: seq<CellId>): (r: seq<S2Response>)
    ensures |r| == Min(|covering|, MaxCells)
    ensures forall k :: 0 <= k < |r| ==> r[k] == ClientPolygon(s2, covering[k])
    ensures forall k :: 0 <= k < |r| ==> Parse(r[k].id) == Some(covering[k])
  {
    MapWhileUnderCap(s2, covering, 0)
  }

  /** `get_polygons`: a record for every string that parses as a u64, none
   *  for the others, in input order. */
  function GetPolygons(s2: Library, ids: seq<string>): (r: seq<S2Response>)
    ensures |r| <= |ids|
    ensures forall x :: x in r ==>
      exists j :: 0 <= j < |ids| && Parse(ids[j]).Some? && x == ClientPolygon(s2, Parse(ids[j]).value)
    ensures forall j :: 0 <= j < |ids| && Parse(ids[j]).Some? ==> ClientPolygon(s2, Parse(ids[j]).value) in r
    decreases |ids|
  {
    if ids == [] then []
    else
      var rest := GetPolygons(s2, ids[1..]);
      match Parse(ids[0])
      case Some(id) => [ClientPolygon(s2, id)] + rest
      case None => rest
  }

  /** Each input contributes on its own: the records for a concatenation are
   *  the records for each part, one after the other. */
  lemma {:induction false} GetPolygonsAppend(s2: Library, a: seq<string>, b: seq<string>)
    ensures GetPolygons(s2, a + b) == GetPolygons(s2, a) + GetPolygons(s2, b)
    decreases |a|
  {
    if a != [] {
      assert (a + b)[1..] == a[1..] + b;
      GetPolygonsAppend(s2, a[1..], b);
    } else {
      assert a + b == b;
    }
  }

  /** A single string gives exactly one record if it parses and none if not;
   *  with GetPolygonsAppend this pins down every output. */
  lemma GetPolygonsSingle(s2: Library, s: string)
    ensures Parse(s).Some? ==> GetPolygons(s2, [s]) == [ClientPolygon(s2, Parse(s).value)]
    ensures Parse(s).None? ==> GetPolygons(s2, [s]) == []
  {
    assert [s][1..] == [];
  }
}
