/** karm-math/edge.h on integer coordinates (`Edgei`): a segment between two
    points, aliased as `sx, sy, ex, ey`. */
module Edges {
  import opened Vecs

  datatype Edge = Edge(start: Vec2, end: Vec2)
  {
    /** The `sx, sy, ex, ey` view of the union. */
    function Sx(): int { start.x }
    function Sy(): int { start.y }
    function Ex(): int { end.x }
    function Ey(): int { end.y }

    /** `operator[]`: `_els` holds `sx, sy, ex, ey` in that order. */
    function At(i: int): (r: int)
      requires 0 <= i < 4
      ensures i < 2 ==> r == start.At(i)
      ensures 2 <= i ==> r == end.At(i - 2)
    {
      [start.x, start.y, end.x, end.y][i]
    }

    /** `dir()`: from the start to the end. */
    function Dir(): (r: Vec2)
      ensures start.Add(r) == end
    {
      end.Sub(start)
    }

    /** `invDir()`: from the end back to the start. */
    function InvDir(): (r: Vec2)
      ensures end.Add(r) == start
    {
      start.Sub(end)
    }

    /** `lenSq()`: the squared length of the direction. */
    function LenSq(): (r: int)
      ensures r >= 0
      ensures r == 0 <==> start == end
    {
      var d := Dir();
      assert d.x == 0 && d.y == 0 <==> start == end;
      d.LenSq()
    }

    /** `swap()`: the same segment the other way round. */
    function Swap(): (r: Edge)
      ensures r.start == end && r.end == start
    {
      Edge(end, start)
    }

    /** `degenerated()`: both endpoints coincide (`Op::eq` on the points). */
    function Degenerated(): bool
    {
      start == end
    }
  }

  /** The default `Edge()`: both endpoints at the origin. */
  const Default := Edge(Zero2, Zero2)

  /** `Edge(x1, y1, x2, y2)`. */
  function FromCoords(x1: int, y1: int, x2: int, y2: int): (e: Edge)
    ensures e.start == Vec2(x1, y1) && e.end == Vec2(x2, y2)
    ensures e.Sx() == x1 && e.Sy() == y1 && e.Ex() == x2 && e.Ey() == y2
  {
    Edge(Vec2(x1, y1), Vec2(x2, y2))
  }

  /** The inverse direction is the negated direction, and swapping turns one into the other. */
  lemma InvDirIsNegatedDir(e: Edge)
    ensures e.InvDir() == e.Dir().Neg()
    ensures e.Swap().Dir() == e.InvDir()
  {
  }

  /** Swapping twice gives the edge back; swapping keeps the squared length
      and whether the edge is degenerate. */
  lemma SwapInvariants(e: Edge)
    ensures e.Swap().Swap() == e
    ensures e.Swap().LenSq() == e.LenSq()
    ensures e.Swap().Degenerated() == e.Degenerated()
  {
    var d := e.Dir();
    assert e.Swap().Dir() == d.Neg();
    assert d.Neg().LenSq() == d.LenSq() by {
      assert (-d.x) * (-d.x) == d.x * d.x;
      assert (-d.y) * (-d.y) == d.y * d.y;
    }
  }

  /** A degenerate edge is exactly one of squared length 0 and zero direction. */
  lemma DegeneratedIffEmpty(e: Edge)
    ensures e.Degenerated() <==> e.LenSq() == 0
    ensures e.Degenerated() <==> e.Dir() == Zero2
  {
  }
}
