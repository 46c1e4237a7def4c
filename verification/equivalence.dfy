/** The solution check: the user's structure is correct when it has as many
    cubes as the target and the two coincide once each is moved so that its
    per-axis minimum is the origin. Only translation is factored out; a
    rotated copy of the target is a different shape. */
module Equivalence {
  import opened Lattice

  function Negate(d: Cell): Cell {
    Cell(-d.x, -d.y, -d.z)
  }

  /** `NormalizeCubePositions`: each cube moved by minus the per-axis minimum. */
  function Normalize(cubes: Structure): (r: Structure)
    ensures |r| == |cubes|
    ensures |cubes| > 0 ==> forall i :: 0 <= i < |r| ==> r[i] == Offset(cubes[i], Lowest(cubes))
  {
    if |cubes| == 0 then [] else Shift(cubes, Negate(Lowest(cubes)))
  }

  /** A normalised structure has no negative coordinate and touches zero on
      every axis: its per-axis minimum is the origin. */
  lemma NormalizeAnchored(cubes: Structure)
    requires |cubes| > 0
    ensures forall i :: 0 <= i < |cubes| ==> Normalize(cubes)[i].x >= 0 && Normalize(cubes)[i].y >= 0 && Normalize(cubes)[i].z >= 0
    ensures Lowest(Normalize(cubes)) == Cell(0, 0, 0)
  {
    var lo := Lowest(cubes);
    LowestShift(cubes, Negate(lo));
  }

  /** Normalising is a translation, so it keeps a structure duplicate-free. */
  lemma NormalizeDistinct(cubes: Structure)
    requires Distinct(cubes)
    ensures Distinct(Normalize(cubes))
  {
  }

  /** Lexicographic order on x, then y, then z: the order of
      `OrderBy(p => p.X).ThenBy(p => p.Y).ThenBy(p => p.Z)`. */
  predicate LexLe(a: Cell, b: Cell) {
    a.x < b.x || (a.x == b.x && (a.y < b.y || (a.y == b.y && a.z <= b.z)))
  }

  predicate Sorted(s: Structure) {
    forall i, j :: 0 <= i < j < |s| ==> LexLe(s[i], s[j])
  }

  function Insert(c: Cell, s: Structure): (r: Structure)
    requires Sorted(s)
    ensures Sorted(r)
    ensures multiset(r) == multiset(s) + multiset{c}
  {
    if |s| == 0 then [c]
    else if LexLe(c, s[0]) then [c] + s
    else
      var rest := Insert(c, s[1..]);
      assert s == [s[0]] + s[1..];
      ConsSorted(s, c, rest);
      [s[0]] + rest
  }

  /** Putting the head of s in front of a sorted list of its tail's cubes
      plus a cube c that does not go first keeps the list sorted. */
  lemma ConsSorted(s: Structure, c: Cell, rest: Structure)
    requires Sorted(s) && |s| > 0 && !LexLe(c, s[0])
    requires Sorted(rest) && multiset(rest) == multiset(s[1..]) + multiset{c}
    ensures Sorted([s[0]] + rest)
  {
    forall j | 0 <= j < |rest|
      ensures LexLe(s[0], rest[j])
    {
      assert rest[j] in multiset(rest);
      if rest[j] != c {
        assert rest[j] in multiset(s[1..]);
        var k :| 0 <= k < |s[1..]| && s[1..][k] == rest[j];
        assert s[k + 1] == rest[j];
      }
    }
    var t := [s[0]] + rest;
    forall a, b | 0 <= a < b < |t|
      ensures LexLe(t[a], t[b])
    {
      if a > 0 {
        assert t[a] == rest[a - 1] && t[b] == rest[b - 1];
      }
    }
  }

  /** The cubes in lexicographic order. */
  function SortCells(s: Structure): (r: Structure)
    ensures Sorted(r)
    ensures multiset(r) == multiset(s)
  {
    if |s| == 0 then []
    else
      assert s == [s[0]] + s[1..];
      Insert(s[0], SortCells(s[1..]))
  }

  /** Two sorted lists holding the same cubes start with the same cube: the
      least one. */
  lemma SortedHeadsAgree(p: Structure, q: Structure)
    requires Sorted(p) && Sorted(q)
    requires multiset(p) == multiset(q) && |p| > 0
    ensures |q| > 0 && p[0] == q[0]
  {
    assert p[0] in multiset(q) && |q| == |multiset(q)| > 0;
    assert q[0] in multiset(p);
    var k :| 0 <= k < |q| && q[k] == p[0];
    var m :| 0 <= m < |p| && p[m] == q[0];
    assert LexLe(q[0], p[0]) && LexLe(p[0], q[0]);
  }

  lemma SortedTail(s: Structure)
    requires Sorted(s) && |s| > 0
    ensures Sorted(s[1..])
  {
    forall i, j | 0 <= i < j < |s| - 1
      ensures LexLe(s[1..][i], s[1..][j])
    {
      assert s[1..][i] == s[i + 1] && s[1..][j] == s[j + 1];
    }
  }

  /** Two sorted lists holding the same cubes are the same list. */
  lemma {:induction false} SortedUnique(p: Structure, q: Structure)
    requires Sorted(p) && Sorted(q)
    requires multiset(p) == multiset(q)
    ensures p == q
    decreases |p|
  {
    if |p| == 0 {
      assert |q| == |multiset(q)| == 0;
    } else {
      SortedHeadsAgree(p, q);
      SortedTail(p);
      SortedTail(q);
      assert p == [p[0]] + p[1..] && q == [q[0]] + q[1..];
      assert multiset(p[1..]) == multiset(p) - multiset{p[0]};
      assert multiset(q[1..]) == multiset(q) - multiset{q[0]};
      SortedUnique(p[1..], q[1..]);
    }
  }

  /** `AreCubesStructurallyEquivalent`: equal counts, then both lists sorted
      and compared position by position. It holds exactly when the two lists
      hold the same cubes with the same multiplicities. */
  function AreStructurallyEquivalent(target: Structure, user: Structure): (eq: bool)
    ensures eq <==> multiset(target) == multiset(user)
  {
    if |target| != |user| then
      assert |multiset(target)| != |multiset(user)|;
      false
    else
      var a, b := SortCells(target), SortCells(user);
      assert multiset(target) == multiset(user) ==> a == b by {
        if multiset(target) == multiset(user) {
          SortedUnique(a, b);
        }
      }
      a == b
  }

  /** `CheckSolution_Click`: a count mismatch is wrong outright; otherwise the
      normalised structures are compared. */
  function CheckSolution(target: Structure, user: Structure): (solved: bool)
    ensures |target| != |user| ==> !solved
    ensures solved <==> |target| == |user| && multiset(Normalize(target)) == multiset(Normalize(user))
  {
    if |user| != |target| then false
    else AreStructurallyEquivalent(Normalize(target), Normalize(user))
  }

  /** In a duplicate-free list every cube occurs once. */
  lemma {:induction false} DistinctMultiplicity(s: Structure, c: Cell)
    requires Distinct(s)
    ensures multiset(s)[c] == if c in s then 1 else 0
    decreases |s|
  {
    if |s| > 0 {
      assert s == [s[0]] + s[1..];
      assert Distinct(s[1..]);
      DistinctMultiplicity(s[1..], c);
      assert s[0] !in s[1..];
    }
  }

  /** For duplicate-free lists, equal multisets and equal sets coincide. */
  lemma SameMultisetIffSameCells(a: Structure, b: Structure)
    requires Distinct(a) && Distinct(b)
    ensures multiset(a) == multiset(b) <==> Cells(a) == Cells(b)
  {
    if Cells(a) == Cells(b) {
      forall c ensures multiset(a)[c] == multiset(b)[c] {
        DistinctMultiplicity(a, c);
        DistinctMultiplicity(b, c);
        assert c in a <==> c in Cells(a);
        assert c in b <==> c in Cells(b);
      }
    }
    if multiset(a) == multiset(b) {
      forall c ensures c in Cells(a) <==> c in Cells(b) {
        assert c in a <==> c in multiset(a);
        assert c in b <==> c in multiset(b);
      }
    }
  }

  /** Since neither structure repeats a cube, the check is set equality of the
      two normalised structures (together with equal counts). */
  lemma SolvedIffSameNormalisedCells(target: Structure, user: Structure)
    requires Distinct(target) && Distinct(user)
    ensures CheckSolution(target, user) <==>
              |target| == |user| && Cells(Normalize(target)) == Cells(Normalize(user))
  {
    var nt, nu := Normalize(target), Normalize(user);
    NormalizeDistinct(target);
    NormalizeDistinct(user);
    SameMultisetIffSameCells(nt, nu);
    assert CheckSolution(target, user) <==> |target| == |user| && multiset(nt) == multiset(nu);
  }

  /** Every structure solves itself. */
  lemma CheckReflexive(s: Structure)
    ensures CheckSolution(s, s)
  {
  }

  /** The check does not depend on which side is the target. */
  lemma CheckSymmetric(a: Structure, b: Structure)
    ensures CheckSolution(a, b) == CheckSolution(b, a)
  {
  }

  /** Normalising forgets where a structure stood. */
  lemma NormalizeShift(s: Structure, d: Cell)
    ensures Normalize(Shift(s, d)) == Normalize(s)
  {
    if |s| > 0 {
      var nt, ns := Normalize(Shift(s, d)), Normalize(s);
      forall i | 0 <= i < |s|
        ensures nt[i] == ns[i]
      {
        NormalizeShiftAt(s, d, i);
      }
      assert nt == ns;
    }
  }

  lemma NormalizeShiftAt(s: Structure, d: Cell, i: nat)
    requires i < |s|
    ensures Normalize(Shift(s, d))[i] == Normalize(s)[i]
  {
    var t := Shift(s, d);
    var lo := Lowest(s);
    assert Lowest(t) == Translate(lo, d) by {
      LowestShift(s, d);
    }
    assert Normalize(t)[i] == Offset(t[i], Lowest(t));
    assert Normalize(s)[i] == Offset(s[i], lo);
    assert t[i] == Translate(s[i], d);
  }

  /** Moving either structure by any vector leaves the verdict unchanged. */
  lemma CheckTranslationInvariant(target: Structure, user: Structure, d: Cell)
    ensures CheckSolution(Shift(target, d), user) == CheckSolution(target, user)
    ensures CheckSolution(target, Shift(user, d)) == CheckSolution(target, user)
  {
    NormalizeShift(target, d);
    NormalizeShift(user, d);
  }

  /** A translated copy of the target is always accepted. */
  lemma TranslatedCopySolves(target: Structure, d: Cell)
    ensures CheckSolution(target, Shift(target, d))
  {
    NormalizeShift(target, d);
  }

  /** A duplicate-free user structure holding exactly the target's cells, in
      any order, is accepted. */
  lemma SameCellsSolve(target: Structure, user: Structure)
    requires Distinct(target) && Distinct(user) && Cells(target) == Cells(user)
    ensures CheckSolution(target, user)
  {
    SameMultisetIffSameCells(target, user);
    assert |target| == |multiset(target)| == |multiset(user)| == |user|;
    if |target| > 0 {
      NormalizeSameCells(target, user);
    }
    SolvedIffSameNormalisedCells(target, user);
  }

  /** Structures with the same cells normalise to the same cells. */
  lemma NormalizeSameCells(target: Structure, user: Structure)
    requires |target| > 0 && |user| > 0 && Cells(target) == Cells(user)
    ensures Cells(Normalize(target)) == Cells(Normalize(user))
  {
    LowestSameCells(target, user);
    var nt, nu := Normalize(target), Normalize(user);
    forall c | c in nt
      ensures c in nu
    {
      var i :| 0 <= i < |nt| && nt[i] == c;
      assert target[i] in Cells(user);
      var j :| 0 <= j < |user| && user[j] == target[i];
      assert nu[j] == c;
    }
    forall c | c in nu
      ensures c in nt
    {
      var j :| 0 <= j < |nu| && nu[j] == c;
      assert user[j] in Cells(target);
      var i :| 0 <= i < |target| && target[i] == user[j];
      assert nt[i] == c;
    }
  }
}
