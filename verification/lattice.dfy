/** The integer lattice of the puzzle volume. A cell is an integer triple and a
    structure is a list of cells kept in insertion order, as the window keeps
    its target and user cube lists. Every coordinate the window stores is
    integral, so nothing here is lost by leaving floating point out. */
module Lattice {

  /** Edge length of the cubic puzzle volume (a 4x4x4 grid). */
  const GridSize: int := 4

  datatype Cell = Cell(x: int, y: int, z: int)

  type Structure = seq<Cell>

  predicate InRange(v: int) {
    0 <= v < GridSize
  }

  predicate InBounds(c: Cell) {
    InRange(c.x) && InRange(c.y) && InRange(c.z)
  }

  predicate AllInBounds(s: Structure) {
    forall i :: 0 <= i < |s| ==> InBounds(s[i])
  }

  /** No cell occurs twice. */
  predicate Distinct(s: Structure) {
    forall i, j :: 0 <= i < j < |s| ==> s[i] != s[j]
  }

  function Above(c: Cell): Cell {
    Cell(c.x, c.y + 1, c.z)
  }

  function Below(c: Cell): Cell {
    Cell(c.x, c.y - 1, c.z)
  }

  /** Cell c is on the ground or rests on a cube of s. */
  predicate Supported(s: Structure, c: Cell) {
    c.y > 0 ==> Below(c) in s
  }

  /** The support invariant: every cube off the ground rests on a cube of the
      same structure. The quantifier fires only on an explicit `Supported`
      term: a membership fact names a new entry of s, and a trigger on
      entries alone would chain down the column without end. */
  predicate SupportClosed(s: Structure) {
    forall i {:trigger Supported(s, s[i])} :: 0 <= i < |s| ==> Supported(s, s[i])
  }

  /** What the generator guarantees of a target structure. */
  predicate Wellformed(s: Structure) {
    AllInBounds(s) && Distinct(s) && SupportClosed(s)
  }

  function Abs(v: int): nat {
    if v < 0 then -v else v
  }

  function Min(a: int, b: int): int {
    if a <= b then a else b
  }

  function Max(a: int, b: int): int {
    if a <= b then b else a
  }

  /** n is a growth neighbour of c: directly above it, or beside it (not
      diagonally) in the same layer. */
  predicate Adjacent(c: Cell, n: Cell) {
    n == Above(c) || (n.y == c.y && Abs(n.x - c.x) + Abs(n.z - c.z) == 1)
  }

  /** The horizontal neighbour at (dx, dz), if its x and z lie in the grid. */
  function Beside(c: Cell, dx: int, dz: int): seq<Cell> {
    var n := Cell(c.x + dx, c.y, c.z + dz);
    if InRange(n.x) && InRange(n.z) then [n] else []
  }

  /** The neighbours the generator enumerates for one cube, in its order: the
      cell above (unless the cube is in the top layer), then the straight
      horizontal neighbours for (dx, dz) = (-1, 0), (0, -1), (0, 1), (1, 0). */
  function Neighbours(c: Cell): (r: seq<Cell>)
    ensures forall n :: n in r ==> Adjacent(c, n)
    ensures forall n {:trigger n in r} :: InBounds(n) && Adjacent(c, n) ==> n in r
    ensures InBounds(c) ==> forall n :: n in r ==> InBounds(n)
  {
    NeighboursAdjacent(c);
    NeighboursComplete(c);
    NeighboursInBounds(c);
    NeighbourList(c)
  }

  /** A cube has at most five neighbours: the one above and four beside. */
  lemma NeighboursCount(c: Cell)
    ensures |Neighbours(c)| <= 5
  {
  }

  /** The enumeration itself; `Neighbours` adds what it is known to hold. */
  function NeighbourList(c: Cell): seq<Cell> {
    (if c.y < GridSize - 1 then [Above(c)] else [])
    + Beside(c, -1, 0) + Beside(c, 0, -1) + Beside(c, 0, 1) + Beside(c, 1, 0)
  }

  /** Every enumerated cell is adjacent to c. */
  lemma NeighboursAdjacent(c: Cell)
    ensures forall n :: n in NeighbourList(c) ==> Adjacent(c, n)
  {
  }

  /** Every in-bounds cell adjacent to c is enumerated. */
  lemma NeighboursComplete(c: Cell)
    ensures forall n :: InBounds(n) && Adjacent(c, n) ==> n in NeighbourList(c)
  {
    forall n | InBounds(n) && Adjacent(c, n)
      ensures n in NeighbourList(c)
    {
      var up := if c.y < GridSize - 1 then [Above(c)] else [];
      if n == Above(c) {
        assert n in up;
      } else if n.x == c.x - 1 {
        assert Beside(c, -1, 0) == [n];
      } else if n.z == c.z - 1 {
        assert Beside(c, 0, -1) == [n];
      } else if n.z == c.z + 1 {
        assert Beside(c, 0, 1) == [n];
      } else {
        assert Beside(c, 1, 0) == [n];
      }
    }
  }

  /** The top-layer test and the x/z bounds test keep the neighbours of an
      in-bounds cube in bounds. */
  lemma NeighboursInBounds(c: Cell)
    ensures InBounds(c) ==> forall n :: n in NeighbourList(c) ==> InBounds(n)
  {
  }

  function Translate(c: Cell, d: Cell): Cell {
    Cell(c.x + d.x, c.y + d.y, c.z + d.z)
  }

  /** c expressed relative to the corner d. */
  function Offset(c: Cell, d: Cell): Cell {
    Cell(c.x - d.x, c.y - d.y, c.z - d.z)
  }

  /** Every cube of s moved by the vector d. */
  function Shift(s: Structure, d: Cell): (r: Structure)
    ensures |r| == |s|
    ensures forall i :: 0 <= i < |s| ==> r[i] == Translate(s[i], d)
  {
    seq(|s|, i requires 0 <= i < |s| => Translate(s[i], d))
  }

  function Meet(a: Cell, b: Cell): Cell {
    Cell(Min(a.x, b.x), Min(a.y, b.y), Min(a.z, b.z))
  }

  function Join(a: Cell, b: Cell): Cell {
    Cell(Max(a.x, b.x), Max(a.y, b.y), Max(a.z, b.z))
  }

  /** The per-axis minimum of the first n cubes of s. */
  function LowestOf(s: Structure, n: nat): (lo: Cell)
    requires 0 < n <= |s|
    ensures forall i :: 0 <= i < n ==> lo.x <= s[i].x && lo.y <= s[i].y && lo.z <= s[i].z
    ensures exists i :: 0 <= i < n && s[i].x == lo.x
    ensures exists i :: 0 <= i < n && s[i].y == lo.y
    ensures exists i :: 0 <= i < n && s[i].z == lo.z
  {
    if n == 1 then s[0] else Meet(LowestOf(s, n - 1), s[n - 1])
  }

  /** The per-axis maximum of the first n cubes of s. */
  function HighestOf(s: Structure, n: nat): (hi: Cell)
    requires 0 < n <= |s|
    ensures forall i :: 0 <= i < n ==> s[i].x <= hi.x && s[i].y <= hi.y && s[i].z <= hi.z
    ensures exists i :: 0 <= i < n && s[i].x == hi.x
    ensures exists i :: 0 <= i < n && s[i].y == hi.y
    ensures exists i :: 0 <= i < n && s[i].z == hi.z
  {
    if n == 1 then s[0] else Join(HighestOf(s, n - 1), s[n - 1])
  }

  /** The per-axis minimum of a non-empty structure (LINQ `Min` on each axis). */
  function Lowest(s: Structure): (lo: Cell)
    requires |s| > 0
    ensures forall i :: 0 <= i < |s| ==> lo.x <= s[i].x && lo.y <= s[i].y && lo.z <= s[i].z
    ensures exists i :: 0 <= i < |s| && s[i].x == lo.x
    ensures exists i :: 0 <= i < |s| && s[i].y == lo.y
    ensures exists i :: 0 <= i < |s| && s[i].z == lo.z
  {
    LowestOf(s, |s|)
  }

  /** The per-axis maximum of a non-empty structure (LINQ `Max` on each axis). */
  function Highest(s: Structure): (hi: Cell)
    requires |s| > 0
    ensures forall i :: 0 <= i < |s| ==> s[i].x <= hi.x && s[i].y <= hi.y && s[i].z <= hi.z
    ensures exists i :: 0 <= i < |s| && s[i].x == hi.x
    ensures exists i :: 0 <= i < |s| && s[i].y == hi.y
    ensures exists i :: 0 <= i < |s| && s[i].z == hi.z
  {
    HighestOf(s, |s|)
  }

  /** Moving a structure moves its lowest corner by the same vector. */
  lemma LowestShift(s: Structure, d: Cell)
    requires |s| > 0
    ensures Lowest(Shift(s, d)) == Translate(Lowest(s), d)
  {
    var t := Shift(s, d);
    var a, b := Lowest(t), Lowest(s);
    assert a.x == b.x + d.x by {
      var i :| 0 <= i < |s| && s[i].x == b.x;
      assert t[i] == Translate(s[i], d);
      var j :| 0 <= j < |t| && t[j].x == a.x;
      assert t[j] == Translate(s[j], d);
    }
    assert a.y == b.y + d.y by {
      var i :| 0 <= i < |s| && s[i].y == b.y;
      assert t[i] == Translate(s[i], d);
      var j :| 0 <= j < |t| && t[j].y == a.y;
      assert t[j] == Translate(s[j], d);
    }
    assert a.z == b.z + d.z by {
      var i :| 0 <= i < |s| && s[i].z == b.z;
      assert t[i] == Translate(s[i], d);
      var j :| 0 <= j < |t| && t[j].z == a.z;
      assert t[j] == Translate(s[j], d);
    }
  }

  /** A structure's cells, as a set. */
  function Cells(s: Structure): set<Cell> {
    set c | c in s
  }

  /** The lowest corner depends only on which cells are present, not on
      their order or repetition. */
  lemma LowestSameCells(a: Structure, b: Structure)
    requires |a| > 0 && |b| > 0 && Cells(a) == Cells(b)
    ensures Lowest(a) == Lowest(b)
  {
    var la, lb := Lowest(a), Lowest(b);
    forall i | 0 <= i < |a|
      ensures lb.x <= a[i].x && lb.y <= a[i].y && lb.z <= a[i].z
    {
      assert a[i] in Cells(b);
    }
    forall j | 0 <= j < |b|
      ensures la.x <= b[j].x && la.y <= b[j].y && la.z <= b[j].z
    {
      assert b[j] in Cells(a);
    }
  }
}
