/** Turning a mouse ray into a grid cell. The ray arithmetic itself (plane
    intersection, the 0.05 footprint tolerance, rounding to the nearest
    integer) is abstracted into its outcomes: for each candidate face the ray
    parameter at which the ray meets it inside the face's footprint, or None
    when it misses or runs parallel. */
module Picking {
  import opened Options
  import opened Lattice
  import opened Placement

  const LastIndex: int := GridSize - 1

  function Distance(a: int, b: int): nat {
    Abs(a - b)
  }

  /** `Clamp`; within a non-empty range the result is the point of the range
      nearest to the value. */
  function Clamp(value: int, min: int, max: int): (r: int)
    ensures min <= max ==> min <= r <= max
    ensures min <= value <= max ==> r == value
    ensures value < min ==> r == min
    ensures min <= max && max < value ==> r == max
    ensures min <= max ==> forall w :: min <= w <= max ==> Distance(r, value) <= Distance(w, value)
  {
    if value < min then min else if value > max then max else value
  }

  // ---------------------------------------------------------------------
  // Top faces and the ground (`GetCubeTopIntersection`)
  // ---------------------------------------------------------------------

  /** Where the ray meets the ground plane y = 0: the ray parameter and the
      hit point's x and z rounded to integers. Absent when the ray runs
      parallel to the ground. */
  datatype GroundHit = GroundHit(t: real, x: int, z: int)

  /** The ground cell under a ground hit, clamped into the grid. */
  function GroundCell(g: GroundHit): (c: Cell)
    ensures c.y == 0 && InRange(c.x) && InRange(c.z)
    ensures c.x == Clamp(g.x, 0, LastIndex) && c.z == Clamp(g.z, 0, LastIndex)
  {
    GroundSnap(g.x, g.z)
  }

  /** The top face of user cube k is hit in front of the camera, and a cube may
      be placed on it. hits[k] is the ray parameter at which the ray meets the
      plane of that top face within its footprint. */
  predicate TopQualifies(user: Structure, target: Structure, hits: seq<Option<real>>, k: int) {
    && 0 <= k < |user| && k < |hits|
    && hits[k].Some? && hits[k].value >= 0.0
    && IsValidPlacement(user, target, Above(user[k]))
  }

  /** Cube k is the first among the qualifying cubes below index n whose top
      face is nearest to the camera. */
  ghost predicate NearestTopAmong(user: Structure, target: Structure, hits: seq<Option<real>>, k: int, n: int) {
    && TopQualifies(user, target, hits, k) && k < n
    && (forall j :: 0 <= j < n && TopQualifies(user, target, hits, j) ==> hits[k].value <= hits[j].value)
    && (forall j :: 0 <= j < k && TopQualifies(user, target, hits, j) ==> hits[k].value < hits[j].value)
  }

  /** `GetCubeTopIntersection`: the cell on top of the nearest user cube whose
      top face is hit and free for a placement (the first such cube on a tie);
      only when there is none, the clamped ground cell under the ground hit, if
      it is a valid placement. */
  method GetCubeTopIntersection(user: Structure, target: Structure, hits: seq<Option<real>>, ground: Option<GroundHit>)
    returns (r: Option<Cell>)
    requires |hits| == |user|
    ensures r.Some? ==> IsValidPlacement(user, target, r.value)
    ensures (exists k :: TopQualifies(user, target, hits, k)) ==>
              exists k :: NearestTopAmong(user, target, hits, k, |user|) && r == Some(Above(user[k]))
    ensures (forall k :: !TopQualifies(user, target, hits, k)) ==>
              (r.Some? <==> ground.Some? && ground.value.t >= 0.0 && IsValidPlacement(user, target, GroundCell(ground.value)))
    ensures (forall k :: !TopQualifies(user, target, hits, k)) && r.Some? ==> r.value == GroundCell(ground.value)
  {
    var closest: Option<real> := None;
    r := None;
    ghost var best: int := -1;
    var k := 0;
    while k < |user|
      invariant 0 <= k <= |user|
      invariant best == -1 <==> r.None?
      invariant r.None? ==> closest.None? && forall j :: 0 <= j < k ==> !TopQualifies(user, target, hits, j)
      invariant r.Some? ==> 0 <= best < k && NearestTopAmong(user, target, hits, best, k)
      invariant r.Some? ==> r == Some(Above(user[best])) && closest == hits[best]
    {
      var cube := user[k];
      match hits[k] {
        case Some(t) =>
          if t >= 0.0 && (closest.None? || t < closest.value) && IsValidPlacement(user, target, Above(cube)) {
            closest := Some(t);
            r := Some(Above(cube));
            best := k;
          }
        case None =>
      }
      k := k + 1;
    }
    if r.Some? {
      assert NearestTopAmong(user, target, hits, best, |user|) && r == Some(Above(user[best]));
    }
    if r.None? {
      match ground {
        case Some(g) =>
          if g.t >= 0.0 && IsValidPlacement(user, target, GroundCell(g)) {
            r := Some(GroundCell(g));
          }
        case None =>
      }
    }
  }

  // ---------------------------------------------------------------------
  // Cube faces (`GetCubeIntersection`)
  // ---------------------------------------------------------------------

  /** Each cube is tested against its six faces: bottom, top, left, right,
      front and back. */
  const FaceCount: int := 6

  /** Face f of user cube k is hit in front of the camera; faces[k][f] is the
      ray parameter at which the ray meets the face's plane within its
      footprint. */
  predicate FaceHit(faces: seq<seq<Option<real>>>, k: int, f: int) {
    0 <= k < |faces| && 0 <= f < |faces[k]| && faces[k][f].Some? && faces[k][f].value >= 0.0
  }

  /** (k1, f1) comes before (k2, f2) in the loop order. */
  predicate Precedes(k1: int, f1: int, k2: int, f2: int) {
    k1 < k2 || (k1 == k2 && f1 < f2)
  }

  /** (k, f) is the first face hit among those before (n, m) in loop order
      that is nearest to the camera. */
  ghost predicate NearestFaceAmong(faces: seq<seq<Option<real>>>, k: int, f: int, n: int, m: int) {
    && FaceHit(faces, k, f) && Precedes(k, f, n, m)
    && (forall k', f' :: FaceHit(faces, k', f') && Precedes(k', f', n, m) ==> faces[k][f].value <= faces[k'][f'].value)
    && (forall k', f' :: FaceHit(faces, k', f') && Precedes(k', f', k, f) ==> faces[k][f].value < faces[k'][f'].value)
  }

  /** `GetCubeIntersection`: the user cube owning the nearest face the ray
      hits (the first in loop order on a tie), or None when no face is hit. */
  method GetCubeIntersection(user: Structure, faces: seq<seq<Option<real>>>) returns (r: Option<Cell>)
    requires |faces| == |user| && forall k :: 0 <= k < |faces| ==> |faces[k]| == FaceCount
    ensures r.Some? ==> r.value in user
    ensures r.None? <==> forall k, f :: !FaceHit(faces, k, f)
    ensures r.Some? ==> exists k, f :: NearestFaceAmong(faces, k, f, |user|, 0) && r.value == user[k]
  {
    var closest: Option<real> := None;
    r := None;
    ghost var bk, bf := -1, -1;
    var k := 0;
    while k < |user|
      invariant 0 <= k <= |user|
      invariant r.None? <==> closest.None?
      invariant r.None? ==> forall k', f' :: FaceHit(faces, k', f') && Precedes(k', f', k, 0) ==> false
      invariant r.Some? ==> NearestFaceAmong(faces, bk, bf, k, 0) && r == Some(user[bk]) && closest == faces[bk][bf]
    {
      var f := 0;
      while f < FaceCount
        invariant 0 <= f <= FaceCount
        invariant r.None? <==> closest.None?
        invariant r.None? ==> forall k', f' :: FaceHit(faces, k', f') && Precedes(k', f', k, f) ==> false
        invariant r.Some? ==> NearestFaceAmong(faces, bk, bf, k, f) && r == Some(user[bk]) && closest == faces[bk][bf]
      {
        match faces[k][f] {
          case Some(t) =>
            if t >= 0.0 && (closest.None? || t < closest.value) {
              closest := Some(t);
              r := Some(user[k]);
              bk, bf := k, f;
            }
          case None =>
        }
        f := f + 1;
      }
      k := k + 1;
    }
    assert forall k', f' :: FaceHit(faces, k', f') ==> Precedes(k', f', |user|, 0);
    if r.Some? {
      assert NearestFaceAmong(faces, bk, bf, |user|, 0) && r.value == user[bk];
    }
  }

  // ---------------------------------------------------------------------
  // Preview position (`SnapToGrid`)
  // ---------------------------------------------------------------------

  /** The highest y among the cubes s[..n] standing in column (x, z). */
  function ColumnTopOf(s: Structure, x: int, z: int, n: nat): (top: Option<int>)
    requires n <= |s|
    ensures top.None? <==> forall i :: 0 <= i < n ==> !(s[i].x == x && s[i].z == z)
    ensures top.Some? ==> Cell(x, top.value, z) in s[..n]
    ensures top.Some? ==> forall i :: 0 <= i < n && s[i].x == x && s[i].z == z ==> s[i].y <= top.value
  {
    if n == 0 then None
    else
      var rest := ColumnTopOf(s, x, z, n - 1);
      var c := s[n - 1];
      assert s[..n] == s[..n - 1] + [c];
      if c.x == x && c.z == z && (rest.None? || rest.value < c.y) then Some(c.y) else rest
  }

  /** The height of the highest cube of s in column (x, z), if any. */
  function ColumnTop(s: Structure, x: int, z: int): (top: Option<int>)
    ensures top.None? <==> forall c :: c in s ==> !(c.x == x && c.z == z)
    ensures top.Some? ==> Cell(x, top.value, z) in s
    ensures top.Some? ==> forall c :: c in s && c.x == x && c.z == z ==> c.y <= top.value
  {
    assert s[..|s|] == s;
    ColumnTopOf(s, x, z, |s|)
  }

  /** The ground cell of the clamped column under (rx, rz). */
  function GroundSnap(rx: int, rz: int): Cell {
    Cell(Clamp(rx, 0, LastIndex), 0, Clamp(rz, 0, LastIndex))
  }

  /** The cell directly above the highest cube (user or target) of the clamped
      column, when the column has a cube and that cell is a valid placement. */
  function RaisedSnap(user: Structure, target: Structure, rx: int, rz: int): Option<Cell> {
    var g := GroundSnap(rx, rz);
    match ColumnTop(user + target, g.x, g.z)
    case None => None
    case Some(top) => if IsValidPlacement(user, target, Cell(g.x, top + 1, g.z)) then Some(Cell(g.x, top + 1, g.z)) else None
  }

  /** `SnapToGrid`: the point is rounded and clamped into the grid; the cell
      above the highest cube of that column (user or target) if that is a
      valid placement, else the ground cell of the column if valid, else the
      origin as a default. */
  function SnapToGrid(user: Structure, target: Structure, rx: int, rz: int): (r: Cell)
    ensures r == Cell(0, 0, 0) || IsValidPlacement(user, target, r)
    ensures r != Cell(0, 0, 0) ==> r.x == Clamp(rx, 0, LastIndex) && r.z == Clamp(rz, 0, LastIndex)
    ensures InRange(r.x) && InRange(r.z) && r.y >= 0
    ensures r.y > 0 ==> forall c :: c in user + target && c.x == r.x && c.z == r.z ==> c.y < r.y
    ensures r.y > 0 ==> Below(r) in user + target
    ensures RaisedSnap(user, target, rx, rz).Some? ==> r == RaisedSnap(user, target, rx, rz).value
    ensures RaisedSnap(user, target, rx, rz).None? && IsValidPlacement(user, target, GroundSnap(rx, rz)) ==> r == GroundSnap(rx, rz)
    ensures RaisedSnap(user, target, rx, rz).None? && !IsValidPlacement(user, target, GroundSnap(rx, rz)) ==> r == Cell(0, 0, 0)
  {
    var g := GroundSnap(rx, rz);
    var top := ColumnTop(user + target, g.x, g.z);
    if top.Some? && IsValidPlacement(user, target, Cell(g.x, top.value + 1, g.z)) then Cell(g.x, top.value + 1, g.z)
    else if IsValidPlacement(user, target, g) then g
    else Cell(0, 0, 0)
  }
}
