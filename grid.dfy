/** Cell coordinates of an image, its 8-connected neighbourhood and clipping at the edges. */
module Grid {
  /** A cell as the Java code stores it in an `Integer[]`: (row, column). */
  type Point = (int, int)

  /**
   * The eight neighbour offsets, in the order both the neighbourhood table of
   * `getPixelNeighbourhood` and the pushes of `findConnectedRegion` list them.
   */
  const Moves: seq<Point> := [(0, 1), (0, -1), (1, 0), (-1, 0), (1, 1), (1, -1), (-1, 1), (-1, -1)]

  /** The pixel itself followed by its eight neighbours. */
  const Directions: seq<Point> := [(0, 0)] + Moves

  function Step(p: Point, d: Point): Point
  {
    (p.0 + d.0, p.1 + d.1)
  }

  predicate InBounds(height: int, width: int, p: Point)
  {
    0 <= p.0 < height && 0 <= p.1 < width
  }

  /** `q` is at most one row and one column away from `p` (possibly `p` itself). */
  predicate Near(p: Point, q: Point)
  {
    -1 <= q.0 - p.0 <= 1 && -1 <= q.1 - p.1 <= 1
  }

  /** 8-connectivity: `q` touches `p` by an edge or a corner. */
  predicate Adjacent(p: Point, q: Point)
  {
    p != q && Near(p, q)
  }

  predicate NoDuplicates<T(==)>(s: seq<T>)
  {
    forall i, j :: 0 <= i < j < |s| ==> s[i] != s[j]
  }

  /** The moves reach exactly the eight adjacent cells. */
  lemma MovesAreAdjacent(p: Point, q: Point)
    ensures Adjacent(p, q) <==> (q.0 - p.0, q.1 - p.1) in Moves
  {
  }

  /**
   * The cells `findConnectedRegion` pushes from p, in its order: p moved by each of the
   * eight offsets. They are exactly the cells adjacent to p, whether or not in bounds.
   */
  function Neighbours(p: Point): (ns: seq<Point>)
    ensures |ns| == |Moves| && forall k :: 0 <= k < |ns| ==> ns[k] == Step(p, Moves[k])
    ensures forall n :: n in ns <==> Adjacent(p, n)
  {
    [(p.0, p.1 + 1), (p.0, p.1 - 1), (p.0 + 1, p.1), (p.0 - 1, p.1),
     (p.0 + 1, p.1 + 1), (p.0 + 1, p.1 - 1), (p.0 - 1, p.1 + 1), (p.0 - 1, p.1 - 1)]
  }

  /**
   * `getPixelNeighbourhood`'s filter: the cells `p + d`, for `d` in `dirs` in order, that
   * lie inside a height x width grid; offsets leading outside are dropped, not wrapped.
   */
  function InBoundsSteps(height: int, width: int, p: Point, dirs: seq<Point>): seq<Point>
    decreases |dirs|
  {
    if dirs == [] then []
    else
      var rest := InBoundsSteps(height, width, p, dirs[..|dirs| - 1]);
      var q := Step(p, dirs[|dirs| - 1]);
      if InBounds(height, width, q) then rest + [q] else rest
  }

  lemma {:induction false} InBoundsStepsSound(height: int, width: int, p: Point, dirs: seq<Point>, q: Point)
    requires q in InBoundsSteps(height, width, p, dirs)
    ensures InBounds(height, width, q) && (q.0 - p.0, q.1 - p.1) in dirs
  {
    var prefix := dirs[..|dirs| - 1];
    if q in InBoundsSteps(height, width, p, prefix) {
      InBoundsStepsSound(height, width, p, prefix, q);
      assert (q.0 - p.0, q.1 - p.1) in prefix;
    }
  }

  lemma {:induction false} InBoundsStepsComplete(height: int, width: int, p: Point, dirs: seq<Point>, d: Point)
    requires d in dirs && InBounds(height, width, Step(p, d))
    ensures Step(p, d) in InBoundsSteps(height, width, p, dirs)
  {
    var prefix := dirs[..|dirs| - 1];
    if d != dirs[|dirs| - 1] {
      assert d in prefix by {
        var k :| 0 <= k < |dirs| && dirs[k] == d;
        assert prefix[k] == d;
      }
      InBoundsStepsComplete(height, width, p, prefix, d);
    }
  }

  lemma {:induction false} InBoundsStepsDistinct(height: int, width: int, p: Point, dirs: seq<Point>)
    requires NoDuplicates(dirs)
    ensures NoDuplicates(InBoundsSteps(height, width, p, dirs))
    ensures |InBoundsSteps(height, width, p, dirs)| <= |dirs|
  {
    if dirs != [] {
      var prefix := dirs[..|dirs| - 1];
      var d := dirs[|dirs| - 1];
      InBoundsStepsDistinct(height, width, p, prefix);
      if Step(p, d) in InBoundsSteps(height, width, p, prefix) {
        InBoundsStepsSound(height, width, p, prefix, Step(p, d));
        assert false;
      }
    }
  }

  lemma {:induction false} InBoundsStepsFirst(height: int, width: int, p: Point, dirs: seq<Point>)
    requires |dirs| > 0 && InBounds(height, width, Step(p, dirs[0]))
    ensures |InBoundsSteps(height, width, p, dirs)| > 0
    ensures InBoundsSteps(height, width, p, dirs)[0] == Step(p, dirs[0])
  {
    if |dirs| > 1 {
      var prefix := dirs[..|dirs| - 1];
      assert prefix[0] == dirs[0];
      InBoundsStepsFirst(height, width, p, prefix);
    }
  }

  /** A cell is kept by the neighbourhood table exactly when it is in bounds and near the pixel. */
  lemma NeighbourhoodMember(height: int, width: int, p: Point, q: Point)
    ensures q in InBoundsSteps(height, width, p, Directions) <==> InBounds(height, width, q) && Near(p, q)
  {
    if q in InBoundsSteps(height, width, p, Directions) {
      InBoundsStepsSound(height, width, p, Directions, q);
    }
    if InBounds(height, width, q) && Near(p, q) {
      var d := (q.0 - p.0, q.1 - p.1);
      assert d in Directions;
      assert Step(p, d) == q;
      InBoundsStepsComplete(height, width, p, Directions, d);
    }
  }

  /**
   * The neighbourhood of an in-bounds pixel: the pixel itself first, then exactly its
   * in-bounds 8-neighbours, each once, so 1 to 9 cells and never a wrapped-around one.
   */
  lemma NeighbourhoodShape(height: int, width: int, p: Point)
    requires InBounds(height, width, p)
    ensures var cells := InBoundsSteps(height, width, p, Directions);
      1 <= |cells| <= 9 && cells[0] == p && NoDuplicates(cells) &&
      forall q :: q in cells <==> InBounds(height, width, q) && Near(p, q)
  {
    InBoundsStepsFirst(height, width, p, Directions);
    InBoundsStepsDistinct(height, width, p, Directions);
    forall q
      ensures q in InBoundsSteps(height, width, p, Directions) <==> InBounds(height, width, q) && Near(p, q)
    {
      NeighbourhoodMember(height, width, p, q);
    }
  }
}
