# Koji S2 cell logic, modelled in Dafny

Koji is a geofencing and routing server. Its `server/algorithms/src/s2.rs` puts a
thin layer of discrete logic over the S2 spherical-cell library. This project
models that layer:

- **Face-aware stepping.** `Dir` and `Traverse` step from a cell to an edge
  neighbour in a compass direction. A table picks one of the four neighbour
  slots, depending on the cube face. On the polar faces 2 and 5 the table also
  depends on a 45-degree longitude band of the cell centre. Any other face or
  band panics.
- **Grids.** `build_grid` lays out a size-by-size block of cells around an
  anchor, in row-major order from the south-west corner. `cell_coverage` turns
  that grid into a set, or returns the anchor cell alone when the size is 1.
- **Circle coverage.** `circle_coverage` / `check_neighbors` flood-fill from the
  cell holding a point. They cover every edge neighbour whose polygon meets a
  circle, and keep expanding from the newly covered cells.
- **Client records.** `get_cells` turns at most the first 100 000 cells of a
  covering into client records. `get_client_polygon` writes the id as a
  decimal string. `get_polygons` parses id strings and skips those that do not
  parse.
- **Bucketing.** `create_cell_map` groups points by the ancestor, at a split
  level, of the level-20 cell that holds them.

The S2 primitives are not part of this model. `S2Library.Library` stands in for
them: a value of total functions that every operation takes as a parameter.
These functions give:

- the leaf cell of a point and a cell's ancestor at a level;
- a cell's face and its four edge neighbours;
- a cell's centre and its four vertices.

Floating-point longitudes are reals. A `panic!` becomes the `Fatal` case of
`S2Library.Result`, and the loops that can panic stop at the first one.

Where the code and its written description part ways, the model follows the
code:

- A cell centre at longitude exactly 180 falls in band 4, and one at -180 in
  band -4. On faces 2 and 5 both reach the panicking arm (`BandAntimeridian`).
- For size 1, `cell_coverage` never calls `build_grid`. So it cannot panic,
  even where the grid's trailing step north would.
- `str::parse::<u64>` accepts a leading `+` and leading zeros. So an id that
  comes back from `get_polygons` is the canonical rendering, which is not
  always the string that was sent in.

## Model

| member | source | states |
|---|---|---|
| `Traversal.SlotFor` | server/algorithms/src/s2.rs:125-208 | the direction table succeeds exactly when `Rotation` gives the face and band an offset k, and then picks slot (k - d) mod 4 (N=0, E=1, S=2, W=3); otherwise it fails with an invalid-band error on faces 0..5 and an invalid-face error beyond |
| `Traversal.Step` | server/algorithms/src/s2.rs:125-208 | one step succeeds iff the cell's face and band have a rotation, and then lands on the neighbour in slot (k - d) mod 4 |
| `Traversal.Traverse` | server/algorithms/src/s2.rs:116-124 | the `count`-iteration loop returns exactly `count` single steps, or the first panic among them |
| `Traversal.TraversedAdditive` | server/algorithms/src/s2.rs:122-124 | traversing a+b steps is traversing a steps and then b more; a panic in the first part is the panic of the whole |
| `Traversal.SlotsDistinct` | server/algorithms/src/s2.rs:131-203 | wherever the table is defined, the four directions pick four distinct slots, and N/S and E/W pick slots two apart |
| `Traversal.EquatorialFacesIgnoreBand` | server/algorithms/src/s2.rs:131-136 | faces 0, 1, 3 and 4 give the same slot in every band; N goes to slot 2 on faces 0/1 and to slot 3 on faces 3/4 |
| `Traversal.BandInterior` | server/algorithms/src/s2.rs:125-130 | every longitude strictly inside (-180, 180) gives a band in -3..3, which both polar tables cover |
| `Traversal.BandAntimeridian` | server/algorithms/src/s2.rs:125-130 | longitude 180 gives band 4 and -180 gives band -4, and faces 2 and 5 panic on them |
| `Traversal.StepPanics` | server/algorithms/src/s2.rs:204-207 | a face above 5 always panics with an invalid-face error; a face in 0..5 with a centre strictly inside (-180, 180) never panics |
| `Traversal.TraversedRegular` | server/algorithms/src/s2.rs:116-124 | on a library whose faces are 0..5 and whose centres lie strictly inside (-180, 180), a traversal of any length succeeds |
| `GridBuilder.BuildGrid` | server/algorithms/src/s2.rs:217-234 | the nested loops return exactly the rows of `Grid`: start at the corner h west and h south, and step north after each row; the first panic is propagated |
| `GridBuilder.BuildRow` | server/algorithms/src/s2.rs:225-230 | the inner loop pushes the row's first cell, then steps east and pushes, size-1 times |
| `GridBuilder.GridShape` | server/algorithms/src/s2.rs:218-233 | a grid that does not panic has exactly size*size cells; with h = size/2, cell i*size+j is j steps east of i steps north of h steps south of h steps west of the anchor |
| `GridBuilder.GridEmpty` | server/algorithms/src/s2.rs:218-233 | a grid of size 0 is empty and never panics |
| `GridBuilder.GridOfOne` | server/algorithms/src/s2.rs:218-233 | a grid of size 1 that does not panic is the anchor alone |
| `GridBuilder.GridRegular` | server/algorithms/src/s2.rs:218-233 | on a library with faces 0..5 and centres strictly inside (-180, 180), `build_grid` never panics |
| `Coverage.ElementsBound` | server/algorithms/src/s2.rs:409-420 | a sequence of ids has at most as many distinct ids as it has elements |
| `Coverage.CellCoverage` | server/algorithms/src/s2.rs:402-422 | for size 1 the result is the single cell holding the point; otherwise it is the set of the grid's cells, or the grid's panic; a result has at most size*size ids and is empty for size 0 |
| `FloodFill.CheckNeighbors` | server/algorithms/src/s2.rs:336-378 | one call adds the point's cell and every neighbour that passes the test; it queues the centre of exactly those passing neighbours that were not covered before, and queues nothing if nothing new was covered |
| `FloodFill.CircleCoverage` | server/algorithms/src/s2.rs:320-400 | the seed cell is always covered; when neighbour centres locate back to their cells, the result is exactly the set of cells reachable from the seed through neighbours that pass the test |
| `FloodFill.ReachIsLeastClosed` | server/algorithms/src/s2.rs:350-389 | a set that holds the seed, is closed under passing neighbours and lies inside every such set is the reachable set |
| `FloodFill.ReachHasSeed` | server/algorithms/src/s2.rs:338-346 | the seed is reachable |
| `FloodFill.ReachLeast` | server/algorithms/src/s2.rs:350-389 | the reachable set is closed under passing neighbours, and it is the least set that holds the seed and is so closed |
| `FloodFill.ReachSound` | server/algorithms/src/s2.rs:363-378 | every reachable cell other than the seed passes the test and is an edge neighbour of a reachable cell |
| `FloodFill.ReachMonotone` | server/algorithms/src/s2.rs:363 | a test that accepts more cells reaches at least as many cells |
| `Responses.ClientPolygon` | server/algorithms/src/s2.rs:300-305 | the record's id is the canonical decimal rendering of the cell id and parses back to it; its corners are the cell's vertices |
| `Responses.MapWhileUnderCap` | server/algorithms/src/s2.rs:264-275 | from position i on, the `map_while` yields one record per cell up to the 100 000 cap, in order |
| `Responses.GetCells` | server/algorithms/src/s2.rs:255-276 | exactly min(n, 100000) records, the k-th being the record of the k-th covering cell, whose id parses back to that cell |
| `Responses.GetPolygons` | server/algorithms/src/s2.rs:307-318 | every record comes from an input string that parses as a u64, every such string yields its record, and there are at most as many records as strings |
| `Responses.GetPolygonsAppend` | server/algorithms/src/s2.rs:307-318 | the records for a concatenation of inputs are the records of each part in order, so inputs are handled one by one and order is kept |
| `Responses.GetPolygonsSingle` | server/algorithms/src/s2.rs:310-316 | one string gives exactly one record if it parses and none otherwise |
| `Decimal.Render` | server/algorithms/src/s2.rs:302 | `to_string` gives a canonical decimal string (digits only, no leading zero except for 0 itself) |
| `Decimal.ValueOfRender` | server/algorithms/src/s2.rs:302 | the rendering of n denotes n |
| `Decimal.ParseRender` | server/algorithms/src/s2.rs:302-310 | rendering any u64 and parsing it back gives the same u64 |
| `Decimal.RenderValue` | server/algorithms/src/s2.rs:302-310 | rendering the value of a canonical string gives that string back |
| `Decimal.LeadingDigitBound` | server/algorithms/src/s2.rs:310 | a digit string with a non-zero first digit denotes a positive number |
| `Decimal.ParseCanonical` | server/algorithms/src/s2.rs:302-310 | a canonical string that parses renders back to itself |
| `Decimal.ValueLeadingZero` | server/algorithms/src/s2.rs:310 | a leading zero does not change the value of a digit string |
| `Decimal.ParseLenient` | server/algorithms/src/s2.rs:310 | the parser also accepts a leading '+' or a leading zero in front of a rendered id |
| `Decimal.ParseOverflow` | server/algorithms/src/s2.rs:310-315 | numbers of 2^64 and above are rejected, not wrapped |
| `Decimal.ParseRejects` | server/algorithms/src/s2.rs:310-315 | the empty string, a lone '+', and any string with a non-digit (after an optional leading '+') are rejected |
| `Buckets.CreateCellMap` | server/algorithms/src/s2.rs:433-446 | the loop builds exactly the map that has one bucket per key that occurs, holding the points with that key in input order |
| `Buckets.SelectAbsent` | server/algorithms/src/s2.rs:439-444 | a key that no point has selects no points |
| `Buckets.GroupedSnoc` | server/algorithms/src/s2.rs:439-444 | one more point is appended to its own bucket (created if missing), and the other buckets are untouched |
| `Buckets.SelectAppend` | server/algorithms/src/s2.rs:439-444 | within a bucket, points from later input come after points from earlier input |
| `Buckets.SelectMembers` | server/algorithms/src/s2.rs:439-444 | a bucket holds exactly the input points whose key is the bucket's key |
| `Buckets.BucketsPartition` | server/algorithms/src/s2.rs:433-446 | each input point is in the bucket of its own key and in no other, and every bucket is non-empty and holds only input points with its key |
| `Buckets.SizeOverRemove` | server/algorithms/src/s2.rs:433-446 | the size sum over a set of keys is one bucket's size plus the sum over the rest, whichever key is taken out |
| `Buckets.SizeOverAgree` | server/algorithms/src/s2.rs:433-446 | two maps whose buckets have the same sizes under some keys have the same size sum over those keys |
| `Buckets.TotalSizeUpdate` | server/algorithms/src/s2.rs:441-443 | replacing one bucket changes the total by the difference of its sizes |
| `Buckets.TotalSizeGrouped` | server/algorithms/src/s2.rs:433-446 | the bucket sizes add up to the number of input points |

## Left out

- The S2 library itself is not part of this model: locating a point, `parent`, `face`, `edge_neighbors`, and a cell's centre and vertices. They are the fields of `S2Library.Library`, with no properties assumed beyond their types. The face is a `nat`, so faces above 5 reach the invalid-face arm.
- `get_region_cells` and the `RegionCoverer` (s2.rs:237-253) are foreign code. `Responses.GetCells` takes the covering as a parameter.
- The Haversine 60-gon (s2.rs:322-330) and `polygon().intersects` (s2.rs:363) are floating-point geometry. They become the `hits` predicate.
- The degree conversions in `ToGeo`, `ToPointArray`, `get_polygon` and `from_cell_id_to_array` (s2.rs:38-78, 278-298, 428-431) are left out. The vertices of a cell and its centre come from `Library` directly.
- f64 rounding and NaN are not modelled. Longitudes are reals. The `f32` halving of a `u8` in `build_grid` is exact, so it is `size / 2`.
- Threads, `Arc<Mutex<…>>` and the check-then-insert race in `check_neighbors` (s2.rs:380-398) are not modelled. The fill is one sequential FIFO worklist, and it computes the same covered set as a race-free run.
- The rayon parallel iterator in `get_polygons` is modelled as a sequential, order-keeping filter (rayon's `collect` keeps order).
- The lock-poisoning and join-failure branches only log (s2.rs:343-345, 358-360, 369-371, 394-396, 415-417), so they are left out.
- Logging and the `Display` impl for `Dir` are left out.
- `FloodFill.CircleCoverage`: the result equals the reachable set only under `Relocates`. `Relocates` says the centre of an edge neighbour of a level-L cell lies in that neighbour. The source relies on this when it forwards centres and locates them again. Without it, only the seed is promised.
- `Responses.GetCells` is the part of `get_cells` after the covering. The covering call, the cell-size argument and the bounding box are left out with the `RegionCoverer`.
- Pairwise distinctness of grid cells, and "a step east then a step west returns to the start", are not modelled. They depend on the geometry of `edge_neighbors`, which the model leaves abstract.
