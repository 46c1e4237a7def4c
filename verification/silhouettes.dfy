/** The three orthographic silhouettes of the target shown beside the 3D
    view. Each grid spans the target's bounding box, and a cube is drawn only
    when it is supported: in the target's lowest layer or directly on top of
    another target cube. */
module Silhouettes {
  import opened Lattice

  type Grid = seq<seq<bool>>

  /** The plane a grid projects onto: x against z (seen from above), z against
      y, and x against y. */
  datatype Plane = XZ | ZY | XY

  /** The target's lowest corner and the grid extents along x, y and z, each
      capped at the grid size as the window does. */
  datatype Frame = Frame(lo: Cell, width: int, height: int, depth: int)

  function Extent(lo: int, hi: int): int {
    Min(hi - lo + 1, GridSize)
  }

  function FrameOf(target: Structure): (f: Frame)
    requires |target| > 0
    ensures f.width >= 1 && f.height >= 1 && f.depth >= 1
  {
    var lo, hi := Lowest(target), Highest(target);
    assert lo.x <= target[0].x <= hi.x && lo.y <= target[0].y <= hi.y && lo.z <= target[0].z <= hi.z;
    Frame(lo, Extent(lo.x, hi.x), Extent(lo.y, hi.y), Extent(lo.z, hi.z))
  }

  function Rows(f: Frame, p: Plane): int {
    match p
    case XZ => f.width
    case ZY => f.depth
    case XY => f.width
  }

  function Cols(f: Frame, p: Plane): int {
    match p
    case XZ => f.depth
    case ZY => f.height
    case XY => f.height
  }

  /** The grid row a normalised cell projects to. */
  function Row(n: Cell, p: Plane): int {
    match p
    case XZ => n.x
    case ZY => n.z
    case XY => n.x
  }

  /** The grid column a normalised cell projects to. */
  function Col(n: Cell, p: Plane): int {
    match p
    case XZ => n.z
    case ZY => n.y
    case XY => n.y
  }

  /** Whether the view loop marks cube c: its position relative to the lowest
      corner lies inside the frame, and it is in the lowest layer or has a
      target cube directly below it. */
  predicate Shown(target: Structure, f: Frame, c: Cell) {
    var n := Offset(c, f.lo);
    && 0 <= n.x < f.width && 0 <= n.y < f.height && 0 <= n.z < f.depth
    && (n.y == 0 || Below(c) in target)
  }

  /** Cube c is drawn at entry (i, j) of the grid for plane p. */
  predicate Projects(target: Structure, f: Frame, c: Cell, p: Plane, i: int, j: int) {
    Shown(target, f, c) && Row(Offset(c, f.lo), p) == i && Col(Offset(c, f.lo), p) == j
  }

  predicate Shaped(g: Grid, rows: int, cols: int) {
    |g| == rows && forall i :: 0 <= i < |g| ==> |g[i]| == cols
  }

  /** The three grids of the window: `topView` (x by z), `frontView` (z by y)
      and `leftView` (x by y). */
  datatype Views = Views(top: Grid, front: Grid, left: Grid)

  function GridOf(v: Views, p: Plane): Grid {
    match p
    case XZ => v.top
    case ZY => v.front
    case XY => v.left
  }

  predicate WellShaped(v: Views, f: Frame) {
    && Shaped(v.top, Rows(f, XZ), Cols(f, XZ))
    && Shaped(v.front, Rows(f, ZY), Cols(f, ZY))
    && Shaped(v.left, Rows(f, XY), Cols(f, XY))
  }

  function Blank(rows: nat, cols: nat): (g: Grid)
    ensures Shaped(g, rows, cols)
    ensures forall i, j :: 0 <= i < rows && 0 <= j < cols ==> !g[i][j]
  {
    seq(rows, _ => seq(cols, _ => false))
  }

  /** Sets one entry of a grid to true. */
  function Mark(g: Grid, i: int, j: int): (r: Grid)
    requires 0 <= i < |g| && 0 <= j < |g[i]|
    ensures |r| == |g| && forall a :: 0 <= a < |g| ==> |r[a]| == |g[a]|
    ensures forall a, b :: 0 <= a < |g| && 0 <= b < |g[a]| ==> (r[a][b] <==> g[a][b] || (a == i && b == j))
  {
    g[i := g[i][j := true]]
  }

  /** One iteration of the view loop: mark cube c in all three grids if it is
      shown. */
  function Stamp(target: Structure, f: Frame, v: Views, c: Cell): (r: Views)
    requires WellShaped(v, f)
    ensures WellShaped(r, f)
    ensures forall p, i, j :: 0 <= i < Rows(f, p) && 0 <= j < Cols(f, p) ==>
              (GridOf(r, p)[i][j] <==> GridOf(v, p)[i][j] || Projects(target, f, c, p, i, j))
  {
    if Shown(target, f, c) then
      var n := Offset(c, f.lo);
      Views(Mark(v.top, n.x, n.z), Mark(v.front, n.z, n.y), Mark(v.left, n.x, n.y))
    else v
  }

  /** The view loop over the cubes target[k..]. */
  function Paint(target: Structure, f: Frame, v: Views, k: nat): (r: Views)
    requires k <= |target| && WellShaped(v, f)
    ensures WellShaped(r, f)
    ensures forall p, i, j :: 0 <= i < Rows(f, p) && 0 <= j < Cols(f, p) ==>
              (GridOf(r, p)[i][j] <==> GridOf(v, p)[i][j] || exists m :: k <= m < |target| && Projects(target, f, target[m], p, i, j))
    decreases |target| - k
  {
    if k == |target| then v
    else Paint(target, f, Stamp(target, f, v, target[k]), k + 1)
  }

  /** Every entry of g is set exactly when some shown target cube projects
      onto it. */
  predicate Depicts(g: Grid, target: Structure, f: Frame, p: Plane) {
    && Shaped(g, Rows(f, p), Cols(f, p))
    && forall i, j :: 0 <= i < Rows(f, p) && 0 <= j < Cols(f, p) ==>
         (g[i][j] <==> exists m :: 0 <= m < |target| && Projects(target, f, target[m], p, i, j))
  }

  /** The three freshly allocated grids of a frame, all entries false. */
  function BlankViews(f: Frame): (v: Views)
    requires f.width >= 1 && f.height >= 1 && f.depth >= 1
    ensures WellShaped(v, f)
    ensures forall p, i, j :: 0 <= i < Rows(f, p) && 0 <= j < Cols(f, p) ==> !GridOf(v, p)[i][j]
  {
    Views(Blank(f.width, f.depth), Blank(f.depth, f.height), Blank(f.width, f.height))
  }

  /** The view loop run over the whole target from blank grids. */
  function Render(target: Structure): (v: Views)
    requires |target| > 0
    ensures forall p :: Depicts(GridOf(v, p), target, FrameOf(target), p)
  {
    var f := FrameOf(target);
    Paint(target, f, BlankViews(f), 0)
  }

  /** `Calculate2DViews`: no views for an empty target; otherwise the three
      grids under the window's keys, "Left" holding the z-by-y grid and
      "Front" the x-by-y grid. */
  function Calculate2DViews(target: Structure): (r: map<string, Grid>)
    ensures |target| == 0 ==> r == map[]
    ensures |target| > 0 ==> r.Keys == {"Top", "Left", "Front"}
    ensures |target| > 0 ==> Depicts(r["Top"], target, FrameOf(target), XZ)
    ensures |target| > 0 ==> Depicts(r["Left"], target, FrameOf(target), ZY)
    ensures |target| > 0 ==> Depicts(r["Front"], target, FrameOf(target), XY)
  {
    if |target| == 0 then map[]
    else
      var v := Render(target);
      assert Depicts(GridOf(v, XZ), target, FrameOf(target), XZ);
      assert Depicts(GridOf(v, ZY), target, FrameOf(target), ZY);
      assert Depicts(GridOf(v, XY), target, FrameOf(target), XY);
      map["Top" := v.top, "Left" := v.front, "Front" := v.left]
  }

  /** For a target inside the grid the cap at four never binds: each extent is
      the bounding box's size along its axis. */
  lemma ExtentsUncapped(target: Structure)
    requires |target| > 0 && AllInBounds(target)
    ensures FrameOf(target).width == Highest(target).x - Lowest(target).x + 1
    ensures FrameOf(target).height == Highest(target).y - Lowest(target).y + 1
    ensures FrameOf(target).depth == Highest(target).z - Lowest(target).z + 1
  {
    var lo, hi := Lowest(target), Highest(target);
    var i :| 0 <= i < |target| && target[i].x == lo.x;
    var j :| 0 <= j < |target| && target[j].x == hi.x;
    var k :| 0 <= k < |target| && target[k].y == lo.y;
    var l :| 0 <= l < |target| && target[l].y == hi.y;
    var m :| 0 <= m < |target| && target[m].z == lo.z;
    var n :| 0 <= n < |target| && target[n].z == hi.z;
    assert InBounds(target[i]) && InBounds(target[j]) && InBounds(target[k]);
    assert InBounds(target[l]) && InBounds(target[m]) && InBounds(target[n]);
  }

  /** Every cube of an in-bounds, support-closed target (as the generator
      builds it) is shown, so the views are its plain projections. */
  lemma SupportedTargetFullyShown(target: Structure)
    requires |target| > 0 && AllInBounds(target) && SupportClosed(target)
    ensures forall m :: 0 <= m < |target| ==> Shown(target, FrameOf(target), target[m])
  {
    forall m | 0 <= m < |target|
      ensures Shown(target, FrameOf(target), target[m])
    {
      SupportedCubeShown(target, m);
    }
  }

  lemma SupportedCubeShown(target: Structure, m: int)
    requires |target| > 0 && AllInBounds(target) && SupportClosed(target)
    requires 0 <= m < |target|
    ensures Shown(target, FrameOf(target), target[m])
  {
    ExtentsUncapped(target);
    var lo, hi := Lowest(target), Highest(target);
    var c := target[m];
    assert InBounds(c) && Supported(target, c);
    assert lo.x <= c.x <= hi.x && lo.y <= c.y <= hi.y && lo.z <= c.z <= hi.z;
    if c.y == 0 {
      var k :| 0 <= k < |target| && target[k].y == lo.y;
      assert InBounds(target[k]);
    }
  }

  /** Hence, for such a target, a grid depicting its top view (as
      `Calculate2DViews` returns under "Top") marks (i, j) exactly when some
      cube stands at x = minX + i, z = minZ + j. */
  lemma TopViewOfSupportedTarget(target: Structure, g: Grid, i: int, j: int)
    requires |target| > 0 && AllInBounds(target) && SupportClosed(target)
    requires Depicts(g, target, FrameOf(target), XZ)
    requires 0 <= i < FrameOf(target).width && 0 <= j < FrameOf(target).depth
    ensures g[i][j] <==>
              exists m :: 0 <= m < |target| && target[m].x - Lowest(target).x == i && target[m].z - Lowest(target).z == j
  {
    var f, lo := FrameOf(target), Lowest(target);
    if g[i][j] {
      TopEntrySound(g, target, f, lo, i, j);
    } else {
      forall m | 0 <= m < |target|
        ensures !(target[m].x - lo.x == i && target[m].z - lo.z == j)
      {
        SupportedCubeShown(target, m);
        TopEntryComplete(g, target, f, lo, m);
      }
    }
  }

  /** A marked top-view entry has a cube standing over it. */
  lemma TopEntrySound(g: Grid, target: Structure, f: Frame, lo: Cell, i: int, j: int)
    requires Depicts(g, target, f, XZ) && f.lo == lo
    requires 0 <= i < f.width && 0 <= j < f.depth && g[i][j]
    ensures exists m :: 0 <= m < |target| && target[m].x - lo.x == i && target[m].z - lo.z == j
  {
    assert Rows(f, XZ) == f.width && Cols(f, XZ) == f.depth;
    var m :| 0 <= m < |target| && Projects(target, f, target[m], XZ, i, j);
  }

  /** A shown cube marks the top-view entry it stands over. */
  lemma TopEntryComplete(g: Grid, target: Structure, f: Frame, lo: Cell, m: int)
    requires Depicts(g, target, f, XZ) && f.lo == lo
    requires 0 <= m < |target| && Shown(target, f, target[m])
    ensures 0 <= target[m].x - lo.x < f.width && 0 <= target[m].z - lo.z < f.depth
    ensures g[target[m].x - lo.x][target[m].z - lo.z]
  {
    var n := Offset(target[m], f.lo);
    assert Rows(f, XZ) == f.width && Cols(f, XZ) == f.depth;
    assert Projects(target, f, target[m], XZ, n.x, n.z);
  }
}
