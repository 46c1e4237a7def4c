/** The placement rule that gates every cube added to the user's structure,
    both during puzzle generation and during play. */
module Placement {
  import opened Lattice

  /** Whether a cube may be put at c. The cell must lie in the grid and must not
      already hold a user cube; on the ground it is always accepted, above the
      ground only when the cell directly below holds a cube of the user's
      structure or of the target structure. */
  function IsValidPlacement(user: Structure, target: Structure, c: Cell): (ok: bool)
    ensures !InBounds(c) ==> !ok
    ensures c in user ==> !ok
    ensures InBounds(c) && c !in user && c.y == 0 ==> ok
    ensures c.y > 0 ==> (ok <==> InBounds(c) && c !in user && (Below(c) in user || Below(c) in target))
  {
    if !InBounds(c) then false
    else if c in user then false
    else if c.y == 0 then true
    else Below(c) in user || Below(c) in target
  }

  /** Validity depends only on which cells the two structures hold, not on
      their order or on repetitions. */
  lemma PlacementDependsOnCellsOnly(user: Structure, target: Structure, user': Structure, target': Structure, c: Cell)
    requires Cells(user) == Cells(user') && Cells(target) == Cells(target')
    ensures IsValidPlacement(user, target, c) == IsValidPlacement(user', target', c)
  {
    assert c in user <==> c in Cells(user);
    assert c in user' <==> c in Cells(user');
    assert Below(c) in user <==> Below(c) in Cells(user);
    assert Below(c) in user' <==> Below(c) in Cells(user');
    assert Below(c) in target <==> Below(c) in Cells(target);
    assert Below(c) in target' <==> Below(c) in Cells(target');
  }

  /** Once a cube is placed at c, c is no longer a valid placement, so the same
      cell can never be added twice. */
  lemma NoDoublePlacement(user: Structure, target: Structure, c: Cell)
    ensures !IsValidPlacement(user + [c], target, c)
  {
    assert (user + [c])[|user|] == c;
  }

  /** A valid placement off the ground always has a cube of one of the two
      structures directly beneath it; the union of both is the support. */
  lemma ValidPlacementIsSupported(user: Structure, target: Structure, c: Cell)
    requires IsValidPlacement(user, target, c)
    ensures c.y == 0 || Below(c) in user + target
  {
  }
}
