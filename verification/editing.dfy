/** The player's edits: the primary gesture adds the picked cell on top of a
    cube or on the ground, the secondary gesture removes the picked cube. The
    target never changes while the player edits. */
module Editing {
  import opened Options
  import opened Lattice
  import opened Placement
  import opened Generator
  import opened Equivalence
  import opened Picking

  /** The window's two cube lists. */
  datatype Session = Session(target: Structure, user: Structure)

  /** What a session keeps true between gestures: the target is a well-formed
      structure, and the user's cubes are in bounds and never repeated. */
  predicate Consistent(s: Session) {
    Wellformed(s.target) && AllInBounds(s.user) && Distinct(s.user)
  }

  /** The session a new puzzle starts: the generated target and the
      perturbed starting structure. */
  function NewSession(oracle: seq<nat>): (s: Option<Session>)
    ensures s.Some? ==> Consistent(s.value)
    ensures s.Some? <==> Generate(oracle).Some?
    ensures s.Some? ==> |s.value.user| <= |s.value.target|
  {
    var p :- Generate(oracle);
    Some(Session(p.target, p.User()))
  }

  /** The add branch of the primary gesture: the picked cell is appended when
      it lies in the grid's x and z range, is not yet a user cube and passes
      the placement rule; otherwise nothing changes. */
  function AddCube(s: Session, pick: Option<Cell>): (r: Session)
    ensures r.target == s.target
    ensures pick.None? ==> r == s
    ensures pick.Some? ==> (r.user == s.user + [pick.value] <==> IsValidPlacement(s.user, s.target, pick.value))
    ensures pick.Some? && !IsValidPlacement(s.user, s.target, pick.value) ==> r == s
    ensures Consistent(s) ==> Consistent(r)
  {
    match pick
    case None => s
    case Some(c) =>
      if InRange(c.x) && InRange(c.z) && c !in s.user && IsValidPlacement(s.user, s.target, c)
      then Session(s.target, s.user + [c])
      else s
  }

  /** The index of the first occurrence of c in s. */
  function IndexOf(s: Structure, c: Cell): (i: nat)
    requires c in s
    ensures i < |s| && s[i] == c && c !in s[..i]
  {
    if s[0] == c then 0
    else
      var j := IndexOf(s[1..], c);
      assert s[1..][..j] == s[1..j + 1];
      1 + j
  }

  /** `List.Remove`: drops the first occurrence of c, if any. */
  function RemoveFirst(s: Structure, c: Cell): (r: Structure)
    ensures c !in s ==> r == s
    ensures multiset(r) == multiset(s) - multiset{c}
  {
    if c in s then RemoveAt(s, IndexOf(s, c)) else s
  }

  /** The structural part of `RemoveCube`: a cube the window knows is dropped
      from the user's list; cubes it supported stay where they are. */
  function RemoveCube(s: Session, cube: Cell): (r: Session)
    ensures r.target == s.target
    ensures cube !in s.user ==> r == s
    ensures multiset(r.user) == multiset(s.user) - multiset{cube}
    ensures forall c :: c in s.user && c != cube ==> c in r.user
    ensures Consistent(s) ==> Consistent(r) && cube !in r.user
  {
    if cube in s.user then
      var i := IndexOf(s.user, cube);
      RemoveAtKeeps(s.user, i);
      var r := Session(s.target, RemoveAt(s.user, i));
      assert forall c :: c in s.user && c != cube ==> c in multiset(r.user);
      assert Distinct(s.user) ==> cube !in r.user by {
        if Distinct(s.user) {
          DistinctMultiplicity(s.user, cube);
          DistinctMultiplicity(r.user, cube);
        }
      }
      r
    else s
  }

  /** Removing a cube that was just added restores the session exactly. */
  lemma RemoveUndoesAdd(s: Session, c: Cell)
    requires IsValidPlacement(s.user, s.target, c)
    ensures RemoveCube(AddCube(s, Some(c)), c) == s
  {
    var u := s.user + [c];
    assert AddCube(s, Some(c)).user == u;
    var i := IndexOf(u, c);
    assert u[..i] == s.user;
  }

  /** The primary gesture: pick a cell on a top face or the ground and add
      it. Whatever the picking returns is added, so the bounds and occupancy
      tests in front of the placement rule never reject a pick. */
  method PrimaryGesture(s: Session, hits: seq<Option<real>>, ground: Option<GroundHit>)
    returns (pick: Option<Cell>, r: Session)
    requires |hits| == |s.user|
    ensures r.target == s.target
    ensures pick.None? ==> r == s
    ensures pick.Some? ==> r.user == s.user + [pick.value] && InBounds(pick.value)
    ensures Consistent(s) ==> Consistent(r)
  {
    pick := GetCubeTopIntersection(s.user, s.target, hits, ground);
    r := AddCube(s, pick);
  }

  /** The secondary gesture: pick a whole user cube and remove it. */
  method SecondaryGesture(s: Session, faces: seq<seq<Option<real>>>) returns (hit: Option<Cell>, r: Session)
    requires |faces| == |s.user| && forall k :: 0 <= k < |faces| ==> |faces[k]| == FaceCount
    ensures r.target == s.target
    ensures hit.None? ==> r == s
    ensures hit.Some? ==> hit.value in s.user && |r.user| == |s.user| - 1
    ensures hit.Some? ==> multiset(r.user) == multiset(s.user) - multiset{hit.value}
    ensures Consistent(s) ==> Consistent(r)
  {
    hit := GetCubeIntersection(s.user, faces);
    match hit {
      case Some(cube) => r := RemoveCube(s, cube);
      case None => r := s;
    }
  }

  /** Rebuilding the target's cells, in any order and anywhere in the grid
      once translated back, solves the puzzle. */
  lemma RebuiltTargetSolves(s: Session)
    requires Consistent(s) && Cells(s.user) == Cells(s.target)
    ensures CheckSolution(s.target, s.user)
  {
    SameCellsSolve(s.target, s.user);
  }

  /** A target cube the user lacks can always be added back: it is in the
      grid, not a user cube, and stands on the ground or on a target cube. */
  lemma MissingTargetCubeAddable(s: Session, c: Cell)
    requires Consistent(s) && c in s.target && c !in s.user
    ensures AddCube(s, Some(c)).user == s.user + [c]
  {
    var i :| 0 <= i < |s.target| && s.target[i] == c;
    assert Supported(s.target, s.target[i]);
  }

  /** The cubes of s that other lacks, in the order of s. */
  function Outside(s: Structure, other: Structure): (r: Structure)
    ensures forall c :: c in r <==> c in s && c !in other
    ensures Distinct(s) ==> Distinct(r)
  {
    if |s| == 0 then []
    else
      var rest := Outside(s[1..], other);
      assert forall c :: c in rest ==> c in s[1..];
      if s[0] in other then rest else [s[0]] + rest
  }

  /** The secondary gesture applied to each of the given cubes in turn. */
  function RemoveAll(s: Session, cubes: seq<Cell>): (r: Session)
    ensures r.target == s.target
    ensures Consistent(s) ==> Consistent(r) && forall c :: c in r.user <==> c in s.user && c !in cubes
    decreases |cubes|
  {
    if |cubes| == 0 then s
    else
      var once := RemoveCube(s, cubes[0]);
      assert forall c :: c in once.user ==> c in multiset(s.user);
      RemoveAll(once, cubes[1..])
  }

  /** The primary gesture picking each of the given cells in turn. */
  function AddAll(s: Session, cells: seq<Cell>): (r: Session)
    ensures r.target == s.target
    ensures Consistent(s) ==> Consistent(r)
    decreases |cells|
  {
    if |cells| == 0 then s else AddAll(AddCube(s, Some(cells[0])), cells[1..])
  }

  /** Missing target cubes can be added back in any order, each one on the
      first try. */
  lemma {:induction false} MissingTargetCubesAddable(s: Session, cells: seq<Cell>)
    requires Consistent(s) && Distinct(cells)
    requires forall c :: c in cells ==> c in s.target && c !in s.user
    ensures AddAll(s, cells).user == s.user + cells
    decreases |cells|
  {
    if |cells| > 0 {
      MissingTargetCubeAddable(s, cells[0]);
      var next := AddCube(s, Some(cells[0]));
      assert Distinct(cells[1..]);
      forall c | c in cells[1..]
        ensures c in next.target && c !in next.user
      {
        assert c != cells[0];
      }
      MissingTargetCubesAddable(next, cells[1..]);
      assert s.user + cells == next.user + cells[1..];
    }
  }

  /** Every consistent session, and so every new puzzle, can be solved with
      the two gestures: remove each decoy, then add back each missing target
      cube, and the check accepts the result. */
  lemma PerturbedPuzzleSolvable(s: Session)
    requires Consistent(s)
    ensures var fixed := AddAll(RemoveAll(s, Outside(s.user, s.target)), Outside(s.target, s.user));
            Cells(fixed.user) == Cells(s.target) && CheckSolution(s.target, fixed.user)
  {
    var decoys, missing := Outside(s.user, s.target), Outside(s.target, s.user);
    var kept := RemoveAll(s, decoys);
    assert Consistent(kept);
    MissingTargetCubesAddable(kept, missing);
    var fixed := AddAll(kept, missing);
    assert Consistent(fixed) && fixed.target == s.target;
    KeptPlusMissing(s.user, s.target, kept.user, missing, fixed.user);
    RebuiltTargetSolves(fixed);
  }

  /** The user cubes that are target cubes together with the missing target
      cubes are exactly the target's cubes. */
  lemma KeptPlusMissing(user: Structure, target: Structure, kept: Structure, missing: Structure, rebuilt: Structure)
    requires forall c :: c in kept <==> c in user && c in target
    requires forall c :: c in missing <==> c in target && c !in user
    requires rebuilt == kept + missing
    ensures Cells(rebuilt) == Cells(target)
  {
    forall c
      ensures c in rebuilt <==> c in target
    {
      assert c in rebuilt <==> c in kept || c in missing;
    }
  }
}
