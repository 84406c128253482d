/** `circle_coverage` / `check_neighbors` (s2.rs:320-400): flood fill from the
 *  cell holding a centre point over edge neighbours whose polygon meets the
 *  circle. The source fans out one thread per newly covered neighbour, all
 *  sharing one covered set; here the same expansion runs as one sequential
 *  worklist of points. The polygon test is the predicate `hits`. */
module FloodFill {
  import opened S2Library

  /** The edge neighbours of `c` that pass the polygon test. */
  function HitNeighbors(s2: Library, c: CellId, hits: CellId -> bool): set<CellId> {
    set i: int | 0 <= i < 4 && hits(s2.edgeNeighbors(c).At(i)) :: s2.edgeNeighbors(c).At(i)
  }

  /** Every edge neighbour of `c` that passes the test is in `cells`. */
  ghost predicate Settled(s2: Library, c: CellId, cells: set<CellId>, hits: CellId -> bool) {
    forall i: Slot :: hits(s2.edgeNeighbors(c).At(i)) ==> s2.edgeNeighbors(c).At(i) in cells
  }

  ghost predicate ClosedUnder(s2: Library, cells: set<CellId>, hits: CellId -> bool) {
    forall c :: c in cells ==> Settled(s2, c, cells, hits)
  }

  /** The cells reachable from `seed` through neighbours that pass the test:
   *  the least set that holds the seed and is closed under such neighbours. */
  ghost function Reach(s2: Library, seed: CellId, hits: CellId -> bool): set<CellId> {
    set c | c in AllIds &&
      forall cells: set<CellId> :: seed in cells && ClosedUnder(s2, cells, hits) ==> c in cells
  }

  /** What the source relies on when it forwards a neighbour's centre and
   *  locates it again at `level`: the centre of an edge neighbour of a
   *  level-`level` cell lies in that neighbour. */
  ghost predicate Relocates(s2: Library, level: nat) {
    forall p: Point, i: Slot ::
      CellAt(s2, s2.center(s2.edgeNeighbors(CellAt(s2, p, level)).At(i)), level)
        == s2.edgeNeighbors(CellAt(s2, p, level)).At(i)
  }

  /** The cells the points of a worklist locate to. */
  ghost function Located(s2: Library, points: seq<Point>, level: nat): set<CellId> {
    set q | q in points :: CellAt(s2, q, level)
  }

  /** One call of `check_neighbors` without its recursion: cover the cell at
   *  the point, then, neighbour by neighbour, skip it if covered, else cover
   *  it if it passes the test and queue its centre. */
  method CheckNeighbors(s2: Library, p: Point, level: u8, hits: CellId -> bool, covered: set<CellId>)
    returns (grown: set<CellId>, next: seq<Point>)
    ensures var c := CellAt(s2, p, level as nat);
      grown == covered + {c} + HitNeighbors(s2, c, hits)
    ensures var c := CellAt(s2, p, level as nat); var nbs := s2.edgeNeighbors(c);
      forall q :: q in next ==>
        exists i: Slot :: q == s2.center(nbs.At(i)) && hits(nbs.At(i)) && nbs.At(i) !in covered + {c}
    ensures var c := CellAt(s2, p, level as nat); var nbs := s2.edgeNeighbors(c);
      forall i: Slot :: hits(nbs.At(i)) && nbs.At(i) !in covered + {c} ==> s2.center(nbs.At(i)) in next
    ensures grown == covered + {CellAt(s2, p, level as nat)} ==> next == []
  {
    var centerCell := CellAt(s2, p, level as nat);
    grown := covered + {centerCell};
    next := [];
    var neighbors := s2.edgeNeighbors(centerCell);
    for i := 0 to 4
      invariant grown == covered + {centerCell} +
        (set j: int | 0 <= j < i && hits(neighbors.At(j)) :: neighbors.At(j))
      invariant forall q :: q in next ==>
        exists j: Slot :: q == s2.center(neighbors.At(j)) && hits(neighbors.At(j)) && neighbors.At(j) !in covered + {centerCell}
      invariant forall j: Slot :: j < i && hits(neighbors.At(j)) && neighbors.At(j) !in covered + {centerCell} ==>
        s2.center(neighbors.At(j)) in next
      invariant grown == covered + {centerCell} ==> next == []
    {
      var neighbor := neighbors.At(i);
      if neighbor !in grown {
        if hits(neighbor) {
          grown := grown + {neighbor};
          next := next + [s2.center(neighbor)];
        }
      }
      assert (set j: int | 0 <= j < i + 1 && hits(neighbors.At(j)) :: neighbors.At(j)) ==
        (set j: int | 0 <= j < i && hits(neighbors.At(j)) :: neighbors.At(j)) +
        (if hits(neighbor) then {neighbor} else {});
    }
    assert (set j: int | 0 <= j < 4 && hits(neighbors.At(j)) :: neighbors.At(j)) == HitNeighbors(s2, centerCell, hits);
  }

  /** `circle_coverage` after the circle is built: the covered set always
   *  holds the seed cell, and when centres relocate it is exactly the cells
   *  reachable from the seed through neighbours that pass the test. */
  method CircleCoverage(s2: Library, center: Point, level: u8, hits: CellId -> bool) returns (covered: set<CellId>)
    ensures CellAt(s2, center, level as nat) in covered
    ensures Relocates(s2, level as nat) ==> covered == Reach(s2, CellAt(s2, center, level as nat), hits)
  {
    ghost var seed := CellAt(s2, center, level as nat);
    ghost var relocates := Relocates(s2, level as nat);
    var pending;
    covered, pending := CheckNeighbors(s2, center, level, hits, {});
    if relocates {
      FirstRound(s2, center, level as nat, hits, covered, pending);
    }
    while pending != []
      invariant seed in covered
      invariant relocates ==> Located(s2, pending, level as nat) <= covered
      invariant relocates ==> forall c :: c in covered - Located(s2, pending, level as nat) ==> Settled(s2, c, covered, hits)
      invariant relocates ==> forall cells: set<CellId> :: seed in cells && ClosedUnder(s2, cells, hits) ==> covered <= cells
      decreases AllIds - covered, |pending|
    {
      var p := pending[0];
      var grown, next := CheckNeighbors(s2, p, level, hits, covered);
      if relocates {
        Round(s2, p, level as nat, hits, seed, covered, grown, pending, next);
      }
      InAllIds(CellAt(s2, p, level as nat));
      if grown == covered {
        assert next == [];
      } else {
        assert AllIds - grown < AllIds - covered;
      }
      covered, pending := grown, pending[1..] + next;
    }
    if relocates {
      ReachIsLeastClosed(s2, seed, hits, covered);
    }
  }

  /** The loop invariants hold after the seed round. */
  lemma FirstRound(s2: Library, center: Point, level: nat, hits: CellId -> bool,
                   covered: set<CellId>, pending: seq<Point>)
    requires Relocates(s2, level)
    requires var c := CellAt(s2, center, level); covered == {} + {c} + HitNeighbors(s2, c, hits)
    requires var c := CellAt(s2, center, level); var nbs := s2.edgeNeighbors(c);
      forall q :: q in pending ==> exists i: Slot :: q == s2.center(nbs.At(i)) && hits(nbs.At(i)) && nbs.At(i) !in {} + {c}
    requires var c := CellAt(s2, center, level); var nbs := s2.edgeNeighbors(c);
      forall i: Slot :: hits(nbs.At(i)) && nbs.At(i) !in {} + {c} ==> s2.center(nbs.At(i)) in pending
    ensures Located(s2, pending, level) <= covered
    ensures forall c :: c in covered - Located(s2, pending, level) ==> Settled(s2, c, covered, hits)
    ensures forall cells: set<CellId> :: CellAt(s2, center, level) in cells && ClosedUnder(s2, cells, hits) ==> covered <= cells
  {
    var seed := CellAt(s2, center, level);
    var nbs := s2.edgeNeighbors(seed);
    forall q | q in pending
      ensures CellAt(s2, q, level) in covered
    {
      var i: Slot :| q == s2.center(nbs.At(i)) && hits(nbs.At(i)) && nbs.At(i) !in {} + {seed};
      assert CellAt(s2, q, level) == nbs.At(i);
    }
    forall c | c in covered - Located(s2, pending, level)
      ensures Settled(s2, c, covered, hits)
    {
      assert c == seed;
    }
    forall cells: set<CellId> | seed in cells && ClosedUnder(s2, cells, hits)
      ensures covered <= cells
    {
      assert Settled(s2, seed, cells, hits);
    }
  }

  /** The loop invariants are kept by one round of the worklist. */
  lemma Round(s2: Library, p: Point, level: nat, hits: CellId -> bool, seed: CellId,
              covered: set<CellId>, grown: set<CellId>, pending: seq<Point>, next: seq<Point>)
    requires Relocates(s2, level)
    requires pending != [] && p == pending[0]
    requires seed in covered
    requires Located(s2, pending, level) <= covered
    requires forall c :: c in covered - Located(s2, pending, level) ==> Settled(s2, c, covered, hits)
    requires forall cells: set<CellId> :: seed in cells && ClosedUnder(s2, cells, hits) ==> covered <= cells
    requires var c := CellAt(s2, p, level); grown == covered + {c} + HitNeighbors(s2, c, hits)
    requires var c := CellAt(s2, p, level); var nbs := s2.edgeNeighbors(c);
      forall q :: q in next ==> exists i: Slot :: q == s2.center(nbs.At(i)) && hits(nbs.At(i)) && nbs.At(i) !in covered + {c}
    requires var c := CellAt(s2, p, level); var nbs := s2.edgeNeighbors(c);
      forall i: Slot :: hits(nbs.At(i)) && nbs.At(i) !in covered + {c} ==> s2.center(nbs.At(i)) in next
    ensures Located(s2, pending[1..] + next, level) <= grown
    ensures forall c :: c in grown - Located(s2, pending[1..] + next, level) ==> Settled(s2, c, grown, hits)
    ensures forall cells: set<CellId> :: seed in cells && ClosedUnder(s2, cells, hits) ==> grown <= cells
  {
    var c0 := CellAt(s2, p, level);
    var nbs := s2.edgeNeighbors(c0);
    var rest := pending[1..] + next;
    assert c0 in Located(s2, pending, level);
    forall q | q in rest
      ensures CellAt(s2, q, level) in grown
    {
      if q in next {
        var i: Slot :| q == s2.center(nbs.At(i)) && hits(nbs.At(i)) && nbs.At(i) !in covered + {c0};
        assert CellAt(s2, q, level) == nbs.At(i);
      } else {
        assert q in pending;
        assert CellAt(s2, q, level) in Located(s2, pending, level);
      }
    }
    forall c | c in grown - Located(s2, rest, level)
      ensures Settled(s2, c, grown, hits)
    {
      if c == c0 {
        assert Settled(s2, c0, grown, hits);
      } else if c in covered {
        assert Settled(s2, c, covered, hits);
      } else {
        assert false;
      }
    }
    forall cells: set<CellId> | seed in cells && ClosedUnder(s2, cells, hits)
      ensures grown <= cells
    {
      assert c0 in cells;
      assert Settled(s2, c0, cells, hits);
    }
  }

  /** A set that holds the seed, is closed, and lies inside every closed set
   *  holding the seed, is `Reach`. */
  lemma ReachIsLeastClosed(s2: Library, seed: CellId, hits: CellId -> bool, covered: set<CellId>)
    requires seed in covered && ClosedUnder(s2, covered, hits)
    requires forall cells: set<CellId> :: seed in cells && ClosedUnder(s2, cells, hits) ==> covered <= cells
    ensures covered == Reach(s2, seed, hits)
  {
    forall c | c in covered
      ensures c in Reach(s2, seed, hits)
    {
      InAllIds(c);
    }
  }

  /** The seed is always reached. */
  lemma ReachHasSeed(s2: Library, seed: CellId, hits: CellId -> bool)
    ensures seed in Reach(s2, seed, hits)
  {
    InAllIds(seed);
  }

  /** `Reach` is itself closed, and lies inside every closed set that holds
   *  the seed. */
  lemma ReachLeast(s2: Library, seed: CellId, hits: CellId -> bool)
    ensures ClosedUnder(s2, Reach(s2, seed, hits), hits)
    ensures forall cells: set<CellId> :: seed in cells && ClosedUnder(s2, cells, hits) ==> Reach(s2, seed, hits) <= cells
  {
    var r := Reach(s2, seed, hits);
    forall c, i: Slot | c in r && hits(s2.edgeNeighbors(c).At(i))
      ensures s2.edgeNeighbors(c).At(i) in r
    {
      var n := s2.edgeNeighbors(c).At(i);
      InAllIds(n);
      forall cells: set<CellId> | seed in cells && ClosedUnder(s2, cells, hits)
        ensures n in cells
      {
        assert Settled(s2, c, cells, hits);
      }
    }
  }

  /** Every reached cell other than the seed passes the test and is an edge
   *  neighbour of a reached cell. */
  lemma ReachSound(s2: Library, seed: CellId, hits: CellId -> bool, c: CellId)
    requires c in Reach(s2, seed, hits) && c != seed
    ensures hits(c)
    ensures exists b, i: Slot :: b in Reach(s2, seed, hits) && s2.edgeNeighbors(b).At(i) == c
  {
    var r := Reach(s2, seed, hits);
    ReachLeast(s2, seed, hits);
    var justified := set x | x in r && (x == seed || (hits(x) && exists b, i: Slot :: b in r && s2.edgeNeighbors(b).At(i) == x));
    ReachHasSeed(s2, seed, hits);
    forall b, i: Slot | b in justified && hits(s2.edgeNeighbors(b).At(i))
      ensures s2.edgeNeighbors(b).At(i) in justified
    {
      assert Settled(s2, b, r, hits);
    }
    assert ClosedUnder(s2, justified, hits);
    assert c in justified;
  }

  /** A weaker test never reaches more: for a fixed level, a circle whose
   *  polygon meets at least the cells a smaller one meets covers at least
   *  as much. */
  lemma ReachMonotone(s2: Library, seed: CellId, small: CellId -> bool, large: CellId -> bool)
    requires forall c :: small(c) ==> large(c)
    ensures Reach(s2, seed, small) <= Reach(s2, seed, large)
  {
    var r := Reach(s2, seed, large);
    ReachLeast(s2, seed, large);
    ReachHasSeed(s2, seed, large);
    forall c | c in r
      ensures Settled(s2, c, r, small)
    {
      assert Settled(s2, c, r, large);
    }
    ReachLeast(s2, seed, small);
  }
}
