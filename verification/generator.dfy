/** Puzzle generation. The window grows a target structure by random adjacent
    placement, copies it to the user's structure, takes two cubes away and adds
    up to two decoys. Every call to the random source is a draw from an explicit
    choice oracle, so the properties below hold for every sequence of choices. */
module Generator {
  import opened Options
  import opened Lattice
  import opened Placement

  /** Largest target the generator asks for (`_maxCubes`). */
  const MaxCubes: nat := 4
  /** Fewest cubes the generator asks for. */
  const MinCubes: nat := 2
  /** How many correct cubes are taken out of the user's copy. */
  const Removals: nat := 2
  /** How many decoy cubes the generator tries to add. */
  const DecoyAttempts: nat := 2

  /** One value drawn from the choice oracle, and the oracle left after it. */
  datatype Draw = Draw(value: nat, rest: seq<nat>)

  /** `Random.Next(lo, hi)`: the oracle's next value, which must lie in [lo, hi);
      a missing or out-of-range value yields no draw. */
  function NextIn(oracle: seq<nat>, lo: nat, hi: nat): (r: Option<Draw>)
    ensures r.Some? <==> |oracle| > 0 && lo <= oracle[0] < hi
    ensures r.Some? ==> lo <= r.value.value < hi && oracle == [r.value.value] + r.value.rest
  {
    if |oracle| > 0 && lo <= oracle[0] < hi then Some(Draw(oracle[0], oracle[1..])) else None
  }

  /** `Random.Next(n)`: a draw in [0, n). */
  function Next(oracle: seq<nat>, n: nat): (r: Option<Draw>)
    ensures r.Some? <==> |oracle| > 0 && oracle[0] < n
    ensures r.Some? ==> r.value == Draw(oracle[0], oracle[1..]) && r.value.value < n
  {
    NextIn(oracle, 0, n)
  }

  /** The filter both generation phases apply to a neighbouring cell: absent
      from the target, absent from the user's structure, and a valid placement.
      The user test is redundant, since the placement rule already rejects
      user cells; the target test is not. An accepted cell is in bounds and on
      the ground or on a cube of either structure. */
  predicate Acceptable(user: Structure, target: Structure, n: Cell): (ok: bool)
    ensures ok <==> n !in target && IsValidPlacement(user, target, n)
    ensures ok ==> InBounds(n) && (n.y == 0 || Below(n) in user || Below(n) in target)
  {
    n !in target && n !in user && IsValidPlacement(user, target, n)
  }

  /** The accepted cells among ns, in order. */
  function AcceptedAmong(ns: seq<Cell>, user: Structure, target: Structure): (r: seq<Cell>)
    ensures forall n :: n in r <==> n in ns && Acceptable(user, target, n)
    ensures |r| <= |ns|
  {
    if |ns| == 0 then []
    else
      (if Acceptable(user, target, ns[0]) then [ns[0]] else [])
      + AcceptedAmong(ns[1..], user, target)
  }

  /** The candidate list built from the cubes of `from`, in the window's order:
      cube by cube, the accepted neighbours of each. A cell reachable from two
      cubes appears twice, which weights the random pick exactly as the window
      does. Each cube contributes at most five cells: the one above and four
      beside it. */
  function Candidates(from: Structure, user: Structure, target: Structure): (r: seq<Cell>)
    ensures |r| <= 5 * |from|
  {
    if |from| == 0 then []
    else
      NeighboursCount(from[0]);
      AcceptedAmong(Neighbours(from[0]), user, target) + Candidates(from[1..], user, target)
  }

  /** The list is built cube by cube: the candidates of a concatenation are
      those of its first part followed by those of its second. */
  lemma {:induction false} CandidatesSplit(a: Structure, b: Structure, user: Structure, target: Structure)
    ensures Candidates(a + b, user, target) == Candidates(a, user, target) + Candidates(b, user, target)
    decreases |a|
  {
    if |a| > 0 {
      assert (a + b)[0] == a[0] && (a + b)[1..] == a[1..] + b;
      CandidatesSplit(a[1..], b, user, target);
    } else {
      assert a + b == b;
    }
  }

  /** Every candidate is an acceptable cell next to a cube of `from`. */
  lemma {:induction false} CandidatesSound(from: Structure, user: Structure, target: Structure, n: Cell)
    requires n in Candidates(from, user, target)
    ensures Acceptable(user, target, n) && exists c :: c in from && Adjacent(c, n)
    decreases |from|
  {
    if n in AcceptedAmong(Neighbours(from[0]), user, target) {
      assert from[0] in from && Adjacent(from[0], n);
    } else {
      CandidatesSound(from[1..], user, target, n);
      var c :| c in from[1..] && Adjacent(c, n);
      assert c in from;
    }
  }

  /** Every acceptable cell next to a cube of `from` is a candidate. */
  lemma {:induction false} CandidatesComplete(from: Structure, user: Structure, target: Structure, c: Cell, n: Cell)
    requires c in from && Adjacent(c, n) && Acceptable(user, target, n)
    ensures n in Candidates(from, user, target)
    decreases |from|
  {
    if c == from[0] {
      assert n in Neighbours(c);
    } else {
      assert c in from[1..];
      CandidatesComplete(from[1..], user, target, c, n);
    }
  }

  /** The growth candidates: the user list is empty while the target grows, so
      support comes from the target alone. */
  function GrowthCandidates(target: Structure): (r: seq<Cell>)
    ensures |r| <= 5 * |target|
  {
    Candidates(target, [], target)
  }

  /** Every growth candidate is a fresh in-bounds cell next to the target,
      resting on the ground or on a target cube. */
  lemma GrowthCandidatesSound(target: Structure, n: Cell)
    requires n in GrowthCandidates(target)
    ensures n !in target && InBounds(n) && (n.y == 0 || Below(n) in target)
    ensures exists c :: c in target && Adjacent(c, n)
  {
    CandidatesSound(target, [], target, n);
  }

  /** A target the growth loop can start from: a first cube on the ground and
      no repeated cell. */
  predicate Seeded(target: Structure) {
    |target| > 0 && InBounds(target[0]) && target[0].y == 0 && Distinct(target)
  }

  /** Every cube after the first is adjacent to an earlier one, so the
      structure hangs together face to face. */
  predicate Connected(s: Structure) {
    forall i :: 0 < i < |s| ==> JoinsEarlier(s, i)
  }

  /** Cube i of s is adjacent to a cube placed before it. */
  predicate JoinsEarlier(s: Structure, i: nat)
    requires i < |s|
  {
    exists j :: 0 <= j < i && Adjacent(s[j], s[i])
  }

  /** While the target has fewer than four cubes, growth always has a
      candidate: the start column holds at most three of its four cells, so
      some cube of it has a free cell directly above. */
  lemma GrowthNeverStalls(target: Structure)
    requires Seeded(target) && |target| < GridSize
    ensures |GrowthCandidates(target)| > 0
  {
    var c0 := target[0];
    var y: int;
    if Cell(c0.x, 1, c0.z) !in target {
      y := 0;
    } else if Cell(c0.x, 2, c0.z) !in target {
      y := 1;
    } else if Cell(c0.x, 3, c0.z) !in target {
      y := 2;
    } else {
      var i1 :| 0 <= i1 < |target| && target[i1] == Cell(c0.x, 1, c0.z);
      var i2 :| 0 <= i2 < |target| && target[i2] == Cell(c0.x, 2, c0.z);
      var i3 :| 0 <= i3 < |target| && target[i3] == Cell(c0.x, 3, c0.z);
      assert false;
    }
    var base := Cell(c0.x, y, c0.z);
    assert base in target;
    var n := Above(base);
    assert Adjacent(base, n);
    assert IsValidPlacement([], target, n);
    CandidatesComplete(target, [], target, base, n);
  }

  /** The growth loop `for (i = 1; i < numCubes; i++)`: `steps` more rounds,
      each adding one randomly chosen candidate if there is any. */
  function Grow(target: Structure, steps: nat, oracle: seq<nat>): (r: Option<(Structure, seq<nat>)>)
    ensures r.Some? ==> target <= r.value.0 && |r.value.0| <= |target| + steps
    ensures r.Some? && Wellformed(target) ==> Wellformed(r.value.0)
    ensures r.Some? && Connected(target) ==> Connected(r.value.0)
    ensures r.Some? && Seeded(target) && |target| + steps <= MaxCubes ==> |r.value.0| == |target| + steps
    decreases steps
  {
    if steps == 0 then Some((target, oracle))
    else
      var cands := GrowthCandidates(target);
      assert Seeded(target) && |target| < GridSize ==> |cands| > 0 by {
        if Seeded(target) && |target| < GridSize {
          GrowthNeverStalls(target);
        }
      }
      if |cands| > 0 then
        var d :- Next(oracle, |cands|);
        var grown := target + [cands[d.value]];
        GrowSeeded(target, cands[d.value]);
        GrowConnected(target, cands[d.value]);
        assert Wellformed(target) ==> Wellformed(grown) by {
          if Wellformed(target) {
            GrowStep(target, cands[d.value]);
          }
        }
        Grow(grown, steps - 1, d.rest)
      else
        Grow(target, steps - 1, oracle)
  }

  /** Adding a growth candidate keeps the target well-formed. */
  lemma GrowStep(target: Structure, n: Cell)
    requires Wellformed(target) && n in GrowthCandidates(target)
    ensures Wellformed(target + [n])
  {
    GrowthCandidatesSound(target, n);
    var grown := target + [n];
    DistinctSnoc(target, n);
    forall i | 0 <= i < |grown|
      ensures Supported(grown, grown[i]) && InBounds(grown[i])
    {
      if i < |target| {
        assert Supported(target, target[i]);
        assert Below(target[i]) in target ==> Below(target[i]) in grown;
      }
    }
  }

  /** Adding a growth candidate keeps a seeded target seeded. */
  lemma GrowSeeded(target: Structure, n: Cell)
    requires n in GrowthCandidates(target)
    ensures Seeded(target) ==> Seeded(target + [n])
  {
    GrowthCandidatesSound(target, n);
    if Seeded(target) {
      DistinctSnoc(target, n);
    }
  }

  /** Adding a growth candidate keeps the target connected. */
  lemma GrowConnected(target: Structure, n: Cell)
    requires n in GrowthCandidates(target)
    ensures Connected(target) ==> Connected(target + [n])
  {
    GrowthCandidatesSound(target, n);
    var c :| c in target && Adjacent(c, n);
    if Connected(target) {
      ConnectedSnoc(target, c, n);
    }
  }

  /** Appending a cell next to a cube of a connected list keeps it connected. */
  lemma ConnectedSnoc(s: Structure, c: Cell, n: Cell)
    requires Connected(s) && c in s && Adjacent(c, n)
    ensures Connected(s + [n])
  {
    var grown := s + [n];
    var k :| 0 <= k < |s| && s[k] == c;
    forall i | 0 < i < |grown|
      ensures JoinsEarlier(grown, i)
    {
      if i == |s| {
        assert grown[k] == c && grown[i] == n;
      } else {
        assert JoinsEarlier(s, i);
        var j :| 0 <= j < i && Adjacent(s[j], s[i]);
        assert grown[j] == s[j] && grown[i] == s[i];
      }
    }
  }

  /** Appending a new cell keeps a list duplicate-free. */
  lemma DistinctSnoc(s: Structure, n: Cell)
    requires Distinct(s) && n !in s
    ensures Distinct(s + [n])
  {
    var v := s + [n];
    forall i, j | 0 <= i < j < |v|
      ensures v[i] != v[j]
    {
      if j == |s| {
        assert v[i] in s;
      }
    }
  }

  /** `List.RemoveAt`. */
  function RemoveAt(s: Structure, i: nat): (r: Structure)
    requires i < |s|
    ensures |r| == |s| - 1
    ensures multiset(r) == multiset(s) - multiset{s[i]}
  {
    assert s == s[..i] + [s[i]] + s[i + 1..];
    s[..i] + s[i + 1..]
  }

  /** Removing one entry keeps a structure duplicate-free and in bounds. */
  lemma RemoveAtKeeps(s: Structure, i: nat)
    requires i < |s|
    ensures forall c :: c in RemoveAt(s, i) ==> c in s
    ensures Distinct(s) ==> Distinct(RemoveAt(s, i))
    ensures AllInBounds(s) ==> AllInBounds(RemoveAt(s, i))
  {
  }

  /** `times` rounds of removing a randomly chosen cube, skipping a round when
      the list is already empty. */
  function RemoveRandom(user: Structure, times: nat, oracle: seq<nat>): (r: Option<(Structure, seq<nat>)>)
    ensures r.Some? ==> multiset(r.value.0) <= multiset(user)
    ensures r.Some? && |user| >= times ==> |r.value.0| == |user| - times
    ensures r.Some? && Distinct(user) ==> Distinct(r.value.0)
    ensures r.Some? && AllInBounds(user) ==> AllInBounds(r.value.0)
    ensures r.Some? ==> forall c :: c in r.value.0 ==> c in user
    decreases times
  {
    if times == 0 then Some((user, oracle))
    else if |user| > 0 then
      var d :- Next(oracle, |user|);
      RemoveAtKeeps(user, d.value);
      RemoveRandom(RemoveAt(user, d.value), times - 1, d.rest)
    else
      RemoveRandom(user, times - 1, oracle)
  }

  /** The user's copy of the target with two random cubes taken away; a copy of
      fewer than two cubes is left as it is. */
  function TakeAway(user: Structure, oracle: seq<nat>): (r: Option<(Structure, seq<nat>)>)
    ensures r.Some? ==> multiset(r.value.0) <= multiset(user)
    ensures r.Some? && |user| >= Removals ==> |r.value.0| == |user| - Removals
    ensures r.Some? && |user| < Removals ==> r.value.0 == user
    ensures r.Some? && Distinct(user) ==> Distinct(r.value.0)
    ensures r.Some? && AllInBounds(user) ==> AllInBounds(r.value.0)
    ensures r.Some? ==> forall c :: c in r.value.0 ==> c in user
  {
    if |user| >= Removals then RemoveRandom(user, Removals, oracle) else Some((user, oracle))
  }

  /** One legal decoy for the user structure u: an acceptable cell next to a
      cube of u. */
  predicate DecoyStep(u: Structure, target: Structure, d: Cell) {
    Acceptable(u, target, d) && exists c :: c in u && Adjacent(c, d)
  }

  /** Each decoy was legal for the user structure as it stood when it was
      added: the base plus the decoys before it. */
  predicate DecoyTrail(base: Structure, target: Structure, decoys: seq<Cell>) {
    forall i :: 0 <= i < |decoys| ==> DecoyStep(base + decoys[..i], target, decoys[i])
  }

  lemma {:induction false} TrailCons(base: Structure, target: Structure, d: Cell, more: seq<Cell>)
    requires DecoyStep(base, target, d)
    requires DecoyTrail(base + [d], target, more)
    ensures DecoyTrail(base, target, [d] + more)
  {
    var ds := [d] + more;
    forall i | 0 <= i < |ds|
      ensures DecoyStep(base + ds[..i], target, ds[i])
    {
      if i == 0 {
        assert base + ds[..0] == base;
      } else {
        assert base + ds[..i] == (base + [d]) + more[..i - 1];
        assert ds[i] == more[i - 1];
      }
    }
  }

  /** A trail of decoys keeps the user structure duplicate-free and in bounds,
      and no decoy is a target cell. */
  lemma {:induction false} TrailKeepsUserSound(base: Structure, target: Structure, decoys: seq<Cell>)
    requires DecoyTrail(base, target, decoys)
    requires Distinct(base) && AllInBounds(base)
    ensures Distinct(base + decoys) && AllInBounds(base + decoys)
    ensures forall d :: d in decoys ==> d !in target
    decreases |decoys|
  {
    if |decoys| > 0 {
      var n := |decoys| - 1;
      var front := decoys[..n];
      TrailPrefix(base, target, decoys, n);
      TrailKeepsUserSound(base, target, front);
      assert DecoyStep(base + front, target, decoys[n]);
      DecoyKeepsUserSound(base + front, target, decoys[n]);
      SplitLast(base, decoys);
    }
  }

  lemma SplitLast(base: seq<Cell>, s: seq<Cell>)
    requires |s| > 0
    ensures s == s[..|s| - 1] + [s[|s| - 1]]
    ensures base + s == (base + s[..|s| - 1]) + [s[|s| - 1]]
  {
  }

  /** Every prefix of a trail is a trail. */
  lemma TrailPrefix(base: Structure, target: Structure, decoys: seq<Cell>, n: nat)
    requires DecoyTrail(base, target, decoys) && n <= |decoys|
    ensures DecoyTrail(base, target, decoys[..n])
  {
    var front := decoys[..n];
    forall i | 0 <= i < |front|
      ensures DecoyStep(base + front[..i], target, front[i])
    {
      assert front[..i] == decoys[..i];
    }
  }

  /** One legal decoy keeps the user structure duplicate-free and in bounds. */
  lemma DecoyKeepsUserSound(u: Structure, target: Structure, d: Cell)
    requires DecoyStep(u, target, d) && Distinct(u) && AllInBounds(u)
    ensures Distinct(u + [d]) && AllInBounds(u + [d]) && d !in target
  {
    assert InBounds(d);
    DistinctSnoc(u, d);
  }

  /** The decoy loop: `attempts` rounds, each adding a random acceptable
      neighbour of the current user structure if there is any. */
  function AddDecoys(user: Structure, target: Structure, attempts: nat, oracle: seq<nat>): (r: Option<(seq<Cell>, seq<nat>)>)
    ensures r.Some? ==> |r.value.0| <= attempts && DecoyTrail(user, target, r.value.0)
    ensures r.Some? && |user| == 0 ==> r.value.0 == []
    ensures |Candidates(user, user, target)| == 0 ==> r == Some(([], oracle))
    ensures r.Some? && |r.value.0| < attempts ==> |Candidates(user + r.value.0, user + r.value.0, target)| == 0
    decreases attempts
  {
    if attempts == 0 then Some(([], oracle))
    else
      var cands := Candidates(user, user, target);
      if |cands| > 0 then
        var d :- Next(oracle, |cands|);
        var decoy := cands[d.value];
        var more :- AddDecoys(user + [decoy], target, attempts - 1, d.rest);
        CandidatesSound(user, user, target, decoy);
        TrailCons(user, target, decoy, more.0);
        AppendRegroup(user, decoy, more.0);
        Some(([decoy] + more.0, more.1))
      else
        assert user + [] == user;
        AddDecoys(user, target, attempts - 1, oracle)
  }

  lemma AppendRegroup(user: Structure, d: Cell, more: seq<Cell>)
    ensures user + ([d] + more) == (user + [d]) + more
  {
  }

  /** A generated puzzle: the target, the user's copy after the removals, and
      the decoys added to it in order. */
  datatype Puzzle = Puzzle(target: Structure, kept: Structure, decoys: seq<Cell>) {
    /** The user's starting structure. */
    function User(): Structure {
      kept + decoys
    }
  }

  /** The one-cube structure growth starts from: the drawn ground cell. */
  function StartAt(x: nat, z: nat): Structure {
    [Cell(x, 0, z)]
  }

  /** Phase one: draw the target size in [2, 4] and a start cell on the
      ground, then grow the target from it. */
  function GrowTarget(oracle: seq<nat>): (r: Option<(Structure, seq<nat>)>)
    ensures r.Some? ==> |oracle| >= 3 && MinCubes <= oracle[0] <= MaxCubes
    ensures r.Some? ==> |r.value.0| == oracle[0]
    ensures r.Some? ==> r.value.0[0] == Cell(oracle[1], 0, oracle[2])
    ensures r.Some? ==> Wellformed(r.value.0) && Connected(r.value.0)
  {
    var count :- NextIn(oracle, MinCubes, MaxCubes + 1);
    var startX :- NextIn(count.rest, 0, GridSize);
    var startZ :- NextIn(startX.rest, 0, GridSize);
    var seed := StartAt(startX.value, startZ.value);
    assert Wellformed(seed) && Seeded(seed) && Connected(seed);
    Grow(seed, count.value - 1, startZ.rest)
  }

  /** Phase two: the user's copy of the target, two cubes taken away, then up
      to two decoys added. */
  function Perturb(target: Structure, oracle: seq<nat>): (r: Option<Puzzle>)
    requires Wellformed(target)
    ensures r.Some? ==> r.value.target == target
    ensures r.Some? ==> multiset(r.value.kept) <= multiset(target)
    ensures r.Some? && |target| >= Removals ==> |r.value.kept| == |target| - Removals
    ensures r.Some? ==> |r.value.decoys| <= DecoyAttempts && DecoyTrail(r.value.kept, target, r.value.decoys)
    ensures r.Some? ==> Distinct(r.value.User()) && AllInBounds(r.value.User())
    ensures r.Some? ==> forall d :: d in r.value.decoys ==> d !in target
    ensures r.Some? && |target| == Removals ==> r.value.User() == []
    ensures r.Some? && |r.value.decoys| < DecoyAttempts ==> |Candidates(r.value.User(), r.value.User(), target)| == 0
  {
    match TakeAway(target, oracle)
    case None => None
    case Some(taken) =>
      var kept := taken.0;
      match AddDecoys(kept, target, DecoyAttempts, taken.1)
      case None => None
      case Some(added) =>
        TrailKeepsUserSound(kept, target, added.0);
        Some(Puzzle(target, kept, added.0))
  }

  /** The generation part of `GenerateNewPuzzle`, driven by the choice oracle.
      It yields no puzzle only when the oracle runs out or offers a value
      outside the range the random source would draw from. */
  function Generate(oracle: seq<nat>): (r: Option<Puzzle>)
    ensures r.Some? ==> |oracle| >= 3 && MinCubes <= oracle[0] <= MaxCubes
    ensures r.Some? ==> |r.value.target| == oracle[0]
    ensures r.Some? ==> r.value.target[0] == Cell(oracle[1], 0, oracle[2])
    ensures r.Some? ==> Wellformed(r.value.target) && Connected(r.value.target)
    ensures r.Some? ==> multiset(r.value.kept) <= multiset(r.value.target)
    ensures r.Some? ==> |r.value.kept| == |r.value.target| - Removals
    ensures r.Some? ==> |r.value.decoys| <= DecoyAttempts && DecoyTrail(r.value.kept, r.value.target, r.value.decoys)
    ensures r.Some? ==> Distinct(r.value.User()) && AllInBounds(r.value.User())
    ensures r.Some? ==> forall d :: d in r.value.decoys ==> d !in r.value.target
    ensures r.Some? && |r.value.target| == MinCubes ==> r.value.User() == []
    ensures r.Some? && |r.value.decoys| < DecoyAttempts ==> |Candidates(r.value.User(), r.value.User(), r.value.target)| == 0
  {
    var grown :- GrowTarget(oracle);
    Perturb(grown.0, grown.1)
  }

  // ---------------------------------------------------------------------
  // Oracles that answer like the random source
  // ---------------------------------------------------------------------

  /** The oracle answers every growth round that draws with a value below the
      number of candidates that round offers, as `Random.Next(count)` does.
      A round without candidates draws nothing. */
  predicate GrowthDrawsFit(target: Structure, steps: nat, oracle: seq<nat>)
    decreases steps
  {
    if steps == 0 then true
    else
      var cands := GrowthCandidates(target);
      if |cands| == 0 then GrowthDrawsFit(target, steps - 1, oracle)
      else |oracle| > 0 && oracle[0] < |cands| && GrowthDrawsFit(target + [cands[oracle[0]]], steps - 1, oracle[1..])
  }

  /** Growth yields a target whenever the draws fit. From a seeded start below
      four cubes every round draws, so exactly `steps` values are consumed. */
  lemma {:induction false} GrowSucceeds(target: Structure, steps: nat, oracle: seq<nat>)
    requires GrowthDrawsFit(target, steps, oracle)
    ensures Grow(target, steps, oracle).Some?
    ensures Seeded(target) && |target| + steps <= MaxCubes ==>
              |oracle| >= steps && Grow(target, steps, oracle).value.1 == oracle[steps..]
    decreases steps
  {
    if steps > 0 {
      var cands := GrowthCandidates(target);
      assert Seeded(target) && |target| < GridSize ==> |cands| > 0 by {
        if Seeded(target) && |target| < GridSize {
          GrowthNeverStalls(target);
        }
      }
      if |cands| == 0 {
        GrowSucceeds(target, steps - 1, oracle);
      } else {
        var n := cands[oracle[0]];
        assert Next(oracle, |cands|) == Some(Draw(oracle[0], oracle[1..]));
        GrowSeeded(target, n);
        GrowSucceeds(target + [n], steps - 1, oracle[1..]);
        if |oracle| >= steps {
          assert oracle[1..][steps - 1..] == oracle[steps..];
        }
      }
    }
  }

  /** The removal draws fit: for a copy of at least two cubes, the first is
      below its length and the second below the length after one removal. */
  predicate RemovalDrawsFit(user: Structure, oracle: seq<nat>) {
    |user| < Removals || (|oracle| >= Removals && oracle[0] < |user| && oracle[1] < |user| - 1)
  }

  /** The removal phase succeeds whenever its draws fit, and takes out the
      entries the two draws name. */
  lemma TakeAwaySucceeds(user: Structure, oracle: seq<nat>)
    requires RemovalDrawsFit(user, oracle)
    ensures TakeAway(user, oracle).Some?
    ensures |user| >= Removals ==>
              TakeAway(user, oracle).value == (RemoveAt(RemoveAt(user, oracle[0]), oracle[1]), oracle[2..])
  {
    if |user| >= Removals {
      var u1 := RemoveAt(user, oracle[0]);
      var u2 := RemoveAt(u1, oracle[1]);
      assert Next(oracle, |user|) == Some(Draw(oracle[0], oracle[1..]));
      assert Next(oracle[1..], |u1|) == Some(Draw(oracle[1], oracle[2..]));
      assert RemoveRandom(u2, 0, oracle[2..]) == Some((u2, oracle[2..]));
      assert RemoveRandom(u1, 1, oracle[1..]) == Some((u2, oracle[2..]));
      assert RemoveRandom(user, 2, oracle) == Some((u2, oracle[2..]));
    }
  }

  /** The oracle answers every decoy round that draws with a value below the
      number of candidates that round offers. */
  predicate DecoyDrawsFit(user: Structure, target: Structure, attempts: nat, oracle: seq<nat>)
    decreases attempts
  {
    if attempts == 0 then true
    else
      var cands := Candidates(user, user, target);
      if |cands| == 0 then DecoyDrawsFit(user, target, attempts - 1, oracle)
      else |oracle| > 0 && oracle[0] < |cands| && DecoyDrawsFit(user + [cands[oracle[0]]], target, attempts - 1, oracle[1..])
  }

  /** The decoy phase succeeds whenever its draws fit. */
  lemma {:induction false} AddDecoysSucceed(user: Structure, target: Structure, attempts: nat, oracle: seq<nat>)
    requires DecoyDrawsFit(user, target, attempts, oracle)
    ensures AddDecoys(user, target, attempts, oracle).Some?
    decreases attempts
  {
    if attempts > 0 {
      var cands := Candidates(user, user, target);
      if |cands| > 0 {
        AddDecoysSucceed(user + [cands[oracle[0]]], target, attempts - 1, oracle[1..]);
        DecoyRound(user, target, attempts, oracle);
      } else {
        AddDecoysSucceed(user, target, attempts - 1, oracle);
      }
    }
  }

  /** A decoy round with an in-range draw adds the drawn candidate and goes on
      from there. */
  lemma DecoyRound(user: Structure, target: Structure, attempts: nat, oracle: seq<nat>)
    requires attempts > 0 && |oracle| > 0 && oracle[0] < |Candidates(user, user, target)|
    requires AddDecoys(user + [Candidates(user, user, target)[oracle[0]]], target, attempts - 1, oracle[1..]).Some?
    ensures AddDecoys(user, target, attempts, oracle).Some?
  {
    assert Next(oracle, |Candidates(user, user, target)|) == Some(Draw(oracle[0], oracle[1..]));
  }

  /** The perturbation draws fit: the removal draws, then the decoy draws for
      the copy the removals leave. */
  predicate PerturbDrawsFit(target: Structure, oracle: seq<nat>) {
    && RemovalDrawsFit(target, oracle)
    && match TakeAway(target, oracle)
       case None => true
       case Some(taken) => DecoyDrawsFit(taken.0, target, DecoyAttempts, taken.1)
  }

  /** Perturbing a well-formed target succeeds whenever the draws fit. */
  lemma PerturbSucceeds(target: Structure, oracle: seq<nat>)
    requires Wellformed(target) && PerturbDrawsFit(target, oracle)
    ensures Perturb(target, oracle).Some?
  {
    TakeAwaySucceeds(target, oracle);
    var taken := TakeAway(target, oracle).value;
    AddDecoysSucceed(taken.0, target, DecoyAttempts, taken.1);
    PerturbOfDraws(target, oracle);
  }

  lemma PerturbOfDraws(target: Structure, oracle: seq<nat>)
    requires Wellformed(target) && TakeAway(target, oracle).Some?
    requires AddDecoys(TakeAway(target, oracle).value.0, target, DecoyAttempts, TakeAway(target, oracle).value.1).Some?
    ensures Perturb(target, oracle).Some?
  {
  }

  /** The size and start draws lie in their ranges and the growth draws fit. */
  predicate GrowTargetDrawsFit(oracle: seq<nat>) {
    && |oracle| >= 3 && MinCubes <= oracle[0] <= MaxCubes && oracle[1] < GridSize as nat && oracle[2] < GridSize as nat
    && GrowthDrawsFit(StartAt(oracle[1], oracle[2]), oracle[0] - 1, oracle[3..])
  }

  /** Phase one yields a target whenever its draws fit; it is the growth from
      the drawn start cell. */
  lemma GrowTargetSucceeds(oracle: seq<nat>)
    requires GrowTargetDrawsFit(oracle)
    ensures GrowTarget(oracle).Some?
    ensures GrowTarget(oracle) == Grow(StartAt(oracle[1], oracle[2]), oracle[0] - 1, oracle[3..])
  {
    assert NextIn(oracle, MinCubes, MaxCubes + 1) == Some(Draw(oracle[0], oracle[1..]));
    assert NextIn(oracle[1..], 0, GridSize) == Some(Draw(oracle[1], oracle[2..]));
    assert NextIn(oracle[2..], 0, GridSize) == Some(Draw(oracle[2], oracle[3..]));
    GrowSucceeds(StartAt(oracle[1], oracle[2]), oracle[0] - 1, oracle[3..]);
  }

  /** Every draw generation makes fits the range the random source would draw
      from: the target's phase, then the perturbation of the grown target. */
  predicate GenerateDrawsFit(oracle: seq<nat>) {
    && GrowTargetDrawsFit(oracle)
    && match Grow(StartAt(oracle[1], oracle[2]), oracle[0] - 1, oracle[3..])
       case None => true
       case Some(grown) => PerturbDrawsFit(grown.0, grown.1)
  }

  /** Generation yields a puzzle for every oracle whose draws fit. */
  lemma GenerateSucceeds(oracle: seq<nat>)
    requires GenerateDrawsFit(oracle)
    ensures Generate(oracle).Some?
  {
    GrowTargetSucceeds(oracle);
    var grown := GrowTarget(oracle).value;
    PerturbSucceeds(grown.0, grown.1);
  }

  /** An oracle whose every remaining draw is 0: the first choice in each list. */
  predicate ZeroDraws(oracle: seq<nat>) {
    forall d :: d in oracle ==> d == 0
  }

  /** Every suffix of a zero oracle is a zero oracle. */
  lemma ZeroDrawsSuffix(oracle: seq<nat>, k: nat)
    requires ZeroDraws(oracle) && k <= |oracle|
    ensures ZeroDraws(oracle[k..])
  {
    forall d | d in oracle[k..]
      ensures d == 0
    {
      var i :| 0 <= i < |oracle| - k && oracle[k..][i] == d;
      assert oracle[i + k] == d && oracle[i + k] in oracle;
    }
  }

  /** Taking the first growth candidate every round fits. */
  lemma {:induction false} GrowZeroDrawsFit(target: Structure, steps: nat, oracle: seq<nat>)
    requires ZeroDraws(oracle) && |oracle| >= steps
    ensures GrowthDrawsFit(target, steps, oracle)
    decreases steps
  {
    if steps > 0 {
      var cands := GrowthCandidates(target);
      if |cands| == 0 {
        GrowZeroDrawsFit(target, steps - 1, oracle);
      } else {
        assert oracle[0] in oracle;
        ZeroDrawsSuffix(oracle, 1);
        GrowZeroDrawsFit(target + [cands[0]], steps - 1, oracle[1..]);
      }
    }
  }

  /** Taking the first decoy candidate every round fits. */
  lemma {:induction false} DecoyZeroDrawsFit(user: Structure, target: Structure, attempts: nat, oracle: seq<nat>)
    requires ZeroDraws(oracle) && |oracle| >= attempts
    ensures DecoyDrawsFit(user, target, attempts, oracle)
    decreases attempts
  {
    if attempts > 0 {
      var cands := Candidates(user, user, target);
      if |cands| == 0 {
        DecoyZeroDrawsFit(user, target, attempts - 1, oracle);
      } else {
        assert oracle[0] in oracle;
        ZeroDrawsSuffix(oracle, 1);
        DecoyZeroDrawsFit(user + [cands[0]], target, attempts - 1, oracle[1..]);
      }
    }
  }

  /** Taking the first choice in every removal and decoy round fits, for a
      target of at least two cubes. */
  lemma PerturbZeroDrawsFit(target: Structure, oracle: seq<nat>)
    requires |target| >= Removals
    requires ZeroDraws(oracle) && |oracle| >= Removals + DecoyAttempts
    ensures PerturbDrawsFit(target, oracle)
  {
    assert oracle[0] in oracle && oracle[1] in oracle;
    TakeAwaySucceeds(target, oracle);
    ZeroDrawsSuffix(oracle, Removals);
    var taken := TakeAway(target, oracle).value;
    DecoyZeroDrawsFit(taken.0, target, DecoyAttempts, taken.1);
  }

  /** Generation is never stuck for want of a legal choice: any size in [2, 4]
      and any start cell, followed by enough zero draws, is an oracle whose
      draws all fit, so the guarantees of `Generate` are never vacuous. */
  lemma GenerateZeroDrawsFit(oracle: seq<nat>)
    requires |oracle| >= 3 + (MaxCubes - 1) + Removals + DecoyAttempts
    requires MinCubes <= oracle[0] <= MaxCubes && oracle[1] < GridSize as nat && oracle[2] < GridSize as nat
    requires ZeroDraws(oracle[3..])
    ensures GenerateDrawsFit(oracle)
  {
    var seed, k, rest := StartAt(oracle[1], oracle[2]), oracle[0] - 1, oracle[3..];
    var grown := GrowFromSeedZeroDraws(seed, k, rest);
    assert GrowTargetDrawsFit(oracle);
    PerturbZeroDrawsFit(grown.0, grown.1);
    GenerateDrawsFitOf(oracle, grown);
  }

  /** The two phases' fits make up the whole generation's fit. */
  lemma GenerateDrawsFitOf(oracle: seq<nat>, grown: (Structure, seq<nat>))
    requires GrowTargetDrawsFit(oracle)
    requires Grow(StartAt(oracle[1], oracle[2]), oracle[0] - 1, oracle[3..]) == Some(grown)
    requires PerturbDrawsFit(grown.0, grown.1)
    ensures GenerateDrawsFit(oracle)
  {
  }

  /** Growth from a drawn start cell with zero draws fits, reaches the drawn
      size and leaves the rest of the zero oracle for the perturbation. */
  lemma GrowFromSeedZeroDraws(seed: Structure, k: nat, rest: seq<nat>) returns (grown: (Structure, seq<nat>))
    requires Seeded(seed) && |seed| + k <= MaxCubes
    requires ZeroDraws(rest) && |rest| >= k + Removals + DecoyAttempts
    ensures GrowthDrawsFit(seed, k, rest) && Grow(seed, k, rest) == Some(grown)
    ensures |grown.0| == |seed| + k && ZeroDraws(grown.1) && |grown.1| >= Removals + DecoyAttempts
  {
    GrowZeroDrawsFit(seed, k, rest);
    GrowSucceeds(seed, k, rest);
    grown := Grow(seed, k, rest).value;
    ZeroDrawsSuffix(rest, k);
  }
}
