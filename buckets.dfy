/** `create_cell_map` (s2.rs:424-446): group points by the ancestor, at a
 *  split level, of the level-20 cell holding each point. */
module Buckets {
  import opened S2Library

  /** The fine level every point is first located at. */
  const FineLevel: nat := 20

  /** The bucket key of a point: `from_array_to_cell_id(point, 20).parent(split_level)`. */
  function Key(s2: Library, p: Point, splitLevel: nat): CellId {
    s2.parent(CellAt(s2, p, FineLevel), splitLevel)
  }

  /** The points whose key is `k`, in input order. */
  function Select(s2: Library, points: seq<Point>, splitLevel: nat, k: CellId): seq<Point>
    decreases |points|
  {
    if points == [] then []
    else
      var last := points[|points| - 1];
      Select(s2, points[..|points| - 1], splitLevel, k) + (if Key(s2, last, splitLevel) == k then [last] else [])
  }

  ghost function Keys(s2: Library, points: seq<Point>, splitLevel: nat): set<CellId> {
    set p | p in points :: Key(s2, p, splitLevel)
  }

  /** The map `create_cell_map` builds: one bucket per key that occurs, holding
   *  the points with that key in input order. */
  ghost function Grouped(s2: Library, points: seq<Point>, splitLevel: nat): map<CellId, seq<Point>> {
    map k | k in Keys(s2, points, splitLevel) :: Select(s2, points, splitLevel, k)
  }

  method CreateCellMap(s2: Library, points: seq<Point>, splitLevel: nat) returns (cellMaps: map<CellId, seq<Point>>)
    ensures cellMaps == Grouped(s2, points, splitLevel)
  {
    var fineCells := seq(|points|, i requires 0 <= i < |points| => CellAt(s2, points[i], FineLevel));
    cellMaps := map[];
    for i := 0 to |points|
      invariant cellMaps == Grouped(s2, points[..i], splitLevel)
    {
      var key := s2.parent(fineCells[i], splitLevel);
      var handler := if key in cellMaps then cellMaps[key] else [];
      GroupedSnoc(s2, points[..i], points[i], splitLevel);
      assert points[..i + 1] == points[..i] + [points[i]];
      cellMaps := cellMaps[key := handler + [points[i]]];
    }
    assert points[..|points|] == points;
  }

  lemma {:induction false} SelectAbsent(s2: Library, points: seq<Point>, splitLevel: nat, k: CellId)
    requires k !in Keys(s2, points, splitLevel)
    ensures Select(s2, points, splitLevel, k) == []
    decreases |points|
  {
    if points != [] {
      var init := points[..|points| - 1];
      assert Keys(s2, init, splitLevel) <= Keys(s2, points, splitLevel);
      SelectAbsent(s2, init, splitLevel, k);
    }
  }

  /** Appending a point appends it to its own bucket and leaves the others. */
  lemma GroupedSnoc(s2: Library, points: seq<Point>, p: Point, splitLevel: nat)
    ensures var m := Grouped(s2, points, splitLevel); var k := Key(s2, p, splitLevel);
      Grouped(s2, points + [p], splitLevel) == m[k := (if k in m then m[k] else []) + [p]]
  {
    var m := Grouped(s2, points, splitLevel);
    var k := Key(s2, p, splitLevel);
    var extended := points + [p];
    var grown := Grouped(s2, extended, splitLevel);
    var expected := m[k := (if k in m then m[k] else []) + [p]];
    assert extended[..|extended| - 1] == points;
    assert Keys(s2, extended, splitLevel) == Keys(s2, points, splitLevel) + {k};
    forall key | key in grown
      ensures key in expected && grown[key] == expected[key]
    {
      if key == k && k !in m {
        SelectAbsent(s2, points, splitLevel, k);
      }
    }
    assert grown == expected;
  }

  /** Later input lands after earlier input in every bucket. */
  lemma {:induction false} SelectAppend(s2: Library, a: seq<Point>, b: seq<Point>, splitLevel: nat, k: CellId)
    ensures Select(s2, a + b, splitLevel, k) == Select(s2, a, splitLevel, k) + Select(s2, b, splitLevel, k)
    decreases |b|
  {
    if b == [] {
      assert a + b == a;
    } else {
      var initB := b[..|b| - 1];
      SelectAppend(s2, a, initB, splitLevel, k);
      assert (a + b)[..|a + b| - 1] == a + initB;
    }
  }

  lemma {:induction false} SelectMembers(s2: Library, points: seq<Point>, splitLevel: nat, k: CellId)
    ensures forall x :: x in Select(s2, points, splitLevel, k) <==> x in points && Key(s2, x, splitLevel) == k
    decreases |points|
  {
    if points != [] {
      var init := points[..|points| - 1];
      SelectMembers(s2, init, splitLevel, k);
      assert points == init + [points[|points| - 1]];
    }
  }

  /** The buckets partition the input: a point of the input is in the bucket
   *  of its own key and in no other, and every bucket is non-empty. */
  lemma BucketsPartition(s2: Library, points: seq<Point>, splitLevel: nat)
    ensures var m := Grouped(s2, points, splitLevel);
      forall k, x :: k in m && x in points ==> (x in m[k] <==> k == Key(s2, x, splitLevel))
    ensures var m := Grouped(s2, points, splitLevel);
      forall x :: x in points ==> Key(s2, x, splitLevel) in m
    ensures var m := Grouped(s2, points, splitLevel);
      forall k :: k in m ==> m[k] != [] && forall x :: x in m[k] ==> x in points && Key(s2, x, splitLevel) == k
  {
    var m := Grouped(s2, points, splitLevel);
    forall k | k in m
      ensures m[k] != [] && forall x :: x in m[k] ==> x in points && Key(s2, x, splitLevel) == k
      ensures forall x :: x in points ==> (x in m[k] <==> k == Key(s2, x, splitLevel))
    {
      SelectMembers(s2, points, splitLevel, k);
      var x :| x in points && Key(s2, x, splitLevel) == k;
      assert x in m[k];
    }
  }

  /** The number of points held by the buckets under `keys`. */
  ghost function SizeOver(m: map<CellId, seq<Point>>, keys: set<CellId>): nat
    requires keys <= m.Keys
    decreases keys
  {
    if keys == {} then 0
    else
      var k :| k in keys;
      |m[k]| + SizeOver(m, keys - {k})
  }

  /** The total number of points held by the buckets of a map. */
  ghost function TotalSize(m: map<CellId, seq<Point>>): nat {
    SizeOver(m, m.Keys)
  }

  /** The sum does not depend on the order keys are taken in. */
  lemma {:induction false} SizeOverRemove(m: map<CellId, seq<Point>>, keys: set<CellId>, k: CellId)
    requires keys <= m.Keys && k in keys
    ensures SizeOver(m, keys) == |m[k]| + SizeOver(m, keys - {k})
    decreases keys
  {
    var chosen :| chosen in keys && SizeOver(m, keys) == |m[chosen]| + SizeOver(m, keys - {chosen});
    if chosen != k {
      SizeOverRemove(m, keys - {chosen}, k);
      SizeOverRemove(m, keys - {k}, chosen);
      assert keys - {chosen} - {k} == keys - {k} - {chosen};
    }
  }

  lemma {:induction false} SizeOverAgree(m1: map<CellId, seq<Point>>, m2: map<CellId, seq<Point>>, keys: set<CellId>)
    requires keys <= m1.Keys && keys <= m2.Keys
    requires forall k :: k in keys ==> |m1[k]| == |m2[k]|
    ensures SizeOver(m1, keys) == SizeOver(m2, keys)
    decreases keys
  {
    if keys != {} {
      var k :| k in keys;
      SizeOverRemove(m1, keys, k);
      SizeOverRemove(m2, keys, k);
      SizeOverAgree(m1, m2, keys - {k});
    }
  }

  lemma TotalSizeUpdate(m: map<CellId, seq<Point>>, k: CellId, v: seq<Point>)
    ensures TotalSize(m[k := v]) + (if k in m then |m[k]| else 0) == TotalSize(m) + |v|
  {
    var updated := m[k := v];
    var rest := m.Keys - {k};
    assert updated.Keys == rest + {k};
    SizeOverRemove(updated, updated.Keys, k);
    assert updated.Keys - {k} == rest;
    SizeOverAgree(updated, m, rest);
    if k in m {
      SizeOverRemove(m, m.Keys, k);
    } else {
      assert m.Keys == rest;
    }
  }

  /** Bucket sizes add up to the number of input points. */
  lemma {:induction false} TotalSizeGrouped(s2: Library, points: seq<Point>, splitLevel: nat)
    ensures TotalSize(Grouped(s2, points, splitLevel)) == |points|
    decreases |points|
  {
    if points == [] {
      assert Grouped(s2, points, splitLevel) == map[];
    } else {
      var init := points[..|points| - 1];
      var p := points[|points| - 1];
      TotalSizeGrouped(s2, init, splitLevel);
      GroupedSnoc(s2, init, p, splitLevel);
      assert init + [p] == points;
      var m := Grouped(s2, init, splitLevel);
      var k := Key(s2, p, splitLevel);
      TotalSizeUpdate(m, k, (if k in m then m[k] else []) + [p]);
    }
  }
}
