# Cube puzzle: a Dafny model of its core

The window (`CubePuzzleCheck/MainWindow.xaml.cs`) hosts a block-stacking
puzzle on a 4×4×4 grid. It generates a target structure of two to four unit
cubes. It shows the player a perturbed copy: two cubes taken away, up to two
decoys added. The player adds and removes cubes with the mouse. The check
accepts the player's structure when it equals the target up to translation.

This project models the logic behind those steps:

- `lattice.dfy` (`Lattice`) holds grid cells, structures (lists of cells in
  insertion order), neighbours, translation and the per-axis lowest and
  highest corner.
- `placement.dfy` (`Placement`) holds the placement rule that gates every
  addition.
- `generator.dfy` (`Generator`) holds puzzle generation. Every call to the
  random source is a draw from an explicit choice oracle (`seq<nat>`).
- `equivalence.dfy` (`Equivalence`) holds normalisation and the structural
  comparison behind the solution check.
- `silhouettes.dfy` (`Silhouettes`) holds the three orthographic views of
  the target.
- `picking.dfy` (`Picking`) holds cell selection from ray hits (top faces,
  the ground, whole cubes) and the snapping of a point to the grid.
- `editing.dfy` (`Editing`) holds the add and remove gestures on a session
  made of a target and a user structure.
- `options.dfy` (`Options`) holds the optional-value type used for failures.

Coordinates are integers. Every `Point3D` the window stores in its two cube
lists is built from `int` values (lines 139, 180, 245 and 501), so its
components are always whole numbers, even where the code compares or
subtracts them as doubles. The ray geometry is abstracted into its outcomes.
For each candidate face the model receives the ray parameter at which the ray
meets that face within its footprint, or nothing. The ground hit is a ray
parameter plus the hit point's rounded x and z.

## Model

| member | source | states |
|---|---|---|
| Placement.IsValidPlacement | CubePuzzleCheck/MainWindow.xaml.cs:605-626 | Rejects cells outside [0,4)³ and cells already in the user structure. Accepts every other ground cell. Above the ground, accepts exactly when the cell below is in the user or the target structure. |
| Placement.PlacementDependsOnCellsOnly | CubePuzzleCheck/MainWindow.xaml.cs:605-626 | The verdict depends only on which cells the two lists hold, not on their order or on repeats. |
| Placement.NoDoublePlacement | CubePuzzleCheck/MainWindow.xaml.cs:612-613 | Once a cell is in the user structure it is never a valid placement, so no cell can be added twice. |
| Placement.ValidPlacementIsSupported | CubePuzzleCheck/MainWindow.xaml.cs:616-625 | A valid placement is on the ground or stands on a cube of the user or the target structure. |
| Generator.NextIn | CubePuzzleCheck/MainWindow.xaml.cs:136-138 | A draw `Random.Next(lo, hi)` exists exactly when the next oracle value lies in [lo, hi). It is that value and consumes exactly one oracle value. |
| Generator.Next | CubePuzzleCheck/MainWindow.xaml.cs:179-193 | `Random.Next(n)` (lines 179 and 193, and 244 in the decoy phase): a draw exists exactly when the next oracle value is below n. The drawn value is that oracle value, and the rest of the oracle follows it. |
| Generator.Acceptable | CubePuzzleCheck/MainWindow.xaml.cs:214-216 | The filter on a neighbouring cell (lines 214-216 and 232-234; lines 154 and 170 in growth): it holds exactly when the cell is not a target cell and is a valid placement, since the user-list test is implied by the placement rule. An accepted cell is in bounds and on the ground or on a cube of either structure. |
| Generator.Candidates | CubePuzzleCheck/MainWindow.xaml.cs:143-176 | The candidate list (also lines 202-240 for decoys), built cube by cube in list order with repeats kept as the loops produce them. Each source cube contributes at most five cells. Its contents are stated by Generator.CandidatesSound, Generator.CandidatesComplete and Generator.CandidatesSplit. |
| Generator.CandidatesSplit | CubePuzzleCheck/MainWindow.xaml.cs:144-176 | The `foreach` appends cube by cube: the candidates of a concatenation are those of its first part followed by those of its second. |
| Generator.GrowthCandidates | CubePuzzleCheck/MainWindow.xaml.cs:143-176 | The growth candidates are the candidates with an empty user list, at most five per target cube. Generator.GrowthCandidatesSound states what they hold. |
| Generator.AcceptedAmong | CubePuzzleCheck/MainWindow.xaml.cs:150-175 | The kept neighbours are exactly those that are absent from both structures and pass the placement rule. |
| Generator.CandidatesSound | CubePuzzleCheck/MainWindow.xaml.cs:143-176 | Every candidate is an acceptable cell adjacent (above, or beside in x/z) to a cube of the source list. |
| Generator.CandidatesComplete | CubePuzzleCheck/MainWindow.xaml.cs:143-176 | Every acceptable cell adjacent to a cube of the source list is a candidate. |
| Generator.GrowthCandidatesSound | CubePuzzleCheck/MainWindow.xaml.cs:86-87 | During growth the user list is empty. Candidates are in bounds, new to the target, and on the ground or on a target cube. |
| Generator.GrowthNeverStalls | CubePuzzleCheck/MainWindow.xaml.cs:141-182 | While the target has fewer than four cubes, the start column has a free cell above one of its cubes, so the candidate list is never empty. |
| Generator.GrowStep | CubePuzzleCheck/MainWindow.xaml.cs:177-181 | Appending a growth candidate keeps the target in bounds, duplicate-free and support-closed. |
| Generator.GrowConnected | CubePuzzleCheck/MainWindow.xaml.cs:144-180 | Appending a growth candidate keeps the target connected: it is adjacent to a cube already placed. |
| Generator.ConnectedSnoc | CubePuzzleCheck/MainWindow.xaml.cs:177-181 | Appending a cell adjacent to a cube of a connected list keeps every cube after the first adjacent to an earlier one. |
| Generator.GrowSeeded | CubePuzzleCheck/MainWindow.xaml.cs:177-181 | Appending a growth candidate keeps the start cube first and the target duplicate-free. |
| Generator.Grow | CubePuzzleCheck/MainWindow.xaml.cs:141-182 | Growth only appends. It keeps the target well-formed and connected (each new cube is adjacent to an earlier one). From a seeded start below four cubes it adds exactly one cube per round. |
| Generator.RemoveAt | CubePuzzleCheck/MainWindow.xaml.cs:194 | `List.RemoveAt` removes exactly that one entry (length and multiset). |
| Generator.RemoveAtKeeps | CubePuzzleCheck/MainWindow.xaml.cs:194 | Removing an entry keeps a list duplicate-free and in bounds and adds no cell. |
| Generator.RemoveRandom | CubePuzzleCheck/MainWindow.xaml.cs:189-196 | The result is a sub-multiset of the input, `times` shorter when the input is long enough, and still duplicate-free and in bounds. |
| Generator.TakeAway | CubePuzzleCheck/MainWindow.xaml.cs:186-197 | Exactly two cubes are removed from a copy of at least two cubes. A shorter copy is unchanged. |
| Generator.TrailKeepsUserSound | CubePuzzleCheck/MainWindow.xaml.cs:199-247 | Decoys that each were legal when added keep the user structure duplicate-free and in bounds, and no decoy is a target cell. |
| Generator.AddDecoys | CubePuzzleCheck/MainWindow.xaml.cs:199-247 | At most `attempts` decoys. Each is acceptable for, and adjacent to, the user structure as it stood when it was added. An empty user structure gets none. A round stops short of `attempts` decoys only when no candidate is left, and with no candidate at the start it adds nothing and draws nothing. |
| Generator.GrowTarget | CubePuzzleCheck/MainWindow.xaml.cs:136-182 | The target has exactly the drawn size in [2,4]. It starts at the drawn ground cell and is in bounds, duplicate-free, support-closed and connected. |
| Generator.Perturb | CubePuzzleCheck/MainWindow.xaml.cs:184-247 | The user structure is the target minus two cubes plus at most two decoys outside the target. It is duplicate-free and in bounds. It is empty for a two-cube target. Fewer than two decoys means the final user structure has no candidate left. |
| Generator.Generate | CubePuzzleCheck/MainWindow.xaml.cs:136-247 | All generation guarantees together: target size in [2,4], a well-formed and connected target, two removals, legal decoys (fewer than two only when no candidate is left), and a user structure that is duplicate-free and in bounds. |
| Generator.GrowSucceeds | CubePuzzleCheck/MainWindow.xaml.cs:141-182 | For every oracle whose growth draws are each below that round's candidate count, growth yields a target. From a seeded start below four cubes it consumes exactly one draw per round. |
| Generator.TakeAwaySucceeds | CubePuzzleCheck/MainWindow.xaml.cs:186-197 | For any two removal draws within the list lengths, the removal phase succeeds, removes exactly the two entries they name and consumes exactly two draws. |
| Generator.AddDecoysSucceed | CubePuzzleCheck/MainWindow.xaml.cs:199-247 | For every oracle whose decoy draws are each below that round's candidate count, the decoy phase succeeds. |
| Generator.PerturbSucceeds | CubePuzzleCheck/MainWindow.xaml.cs:184-247 | For every oracle whose removal and decoy draws lie in range, perturbing a well-formed target succeeds. |
| Generator.GrowTargetSucceeds | CubePuzzleCheck/MainWindow.xaml.cs:136-182 | For any size in [2,4], any start cell and growth draws in range, phase one yields the growth from that start cell. |
| Generator.GenerateSucceeds | CubePuzzleCheck/MainWindow.xaml.cs:136-247 | For every oracle whose draws each lie in the range the random source draws from, generation yields a puzzle. |
| Generator.GrowZeroDrawsFit | CubePuzzleCheck/MainWindow.xaml.cs:177-181 | Always taking the first growth candidate is a choice in range in every round. |
| Generator.DecoyZeroDrawsFit | CubePuzzleCheck/MainWindow.xaml.cs:242-246 | Always taking the first decoy candidate is a choice in range in every round. |
| Generator.PerturbZeroDrawsFit | CubePuzzleCheck/MainWindow.xaml.cs:184-247 | For a target of at least two cubes, draws of zero are in range for both removals and every decoy round. |
| Generator.GenerateZeroDrawsFit | CubePuzzleCheck/MainWindow.xaml.cs:136-247 | Any size in [2,4] and start cell followed by zero draws is an oracle in range. Such oracles exist for every size and start cell, so the guarantees of `Generate` are never vacuous. |
| Generator.GrowFromSeedZeroDraws | CubePuzzleCheck/MainWindow.xaml.cs:139-182 | Growing from a one-cube ground start with zero draws fits every round, reaches the drawn size and leaves the rest of the zero oracle for the perturbation. |
| Equivalence.Normalize | CubePuzzleCheck/MainWindow.xaml.cs:992-1004 | Each cube moves by minus the list's per-axis minimum. Length and order are kept. |
| Equivalence.NormalizeAnchored | CubePuzzleCheck/MainWindow.xaml.cs:998-1003 | Normalised coordinates are all ≥ 0 and each axis minimum is 0. |
| Equivalence.NormalizeDistinct | CubePuzzleCheck/MainWindow.xaml.cs:1003 | Normalising neither creates nor removes repeated cells. |
| Equivalence.Insert | CubePuzzleCheck/MainWindow.xaml.cs:1012-1013 | Inserting into a list sorted by (x, y, z) keeps it sorted and is a permutation. |
| Equivalence.SortCells | CubePuzzleCheck/MainWindow.xaml.cs:1012-1013 | The `OrderBy(X).ThenBy(Y).ThenBy(Z)` result is sorted and a permutation of the input. |
| Equivalence.SortedUnique | CubePuzzleCheck/MainWindow.xaml.cs:1012-1023 | Two sorted lists with the same multiset are equal, so the elementwise comparison tests multiset equality. |
| Equivalence.AreStructurallyEquivalent | CubePuzzleCheck/MainWindow.xaml.cs:1006-1025 | True exactly when the two lists hold the same cubes with the same multiplicities. |
| Equivalence.CheckSolution | CubePuzzleCheck/MainWindow.xaml.cs:971-987 | False on a count mismatch. Otherwise true exactly when the normalised structures are equal as multisets. |
| Equivalence.DistinctMultiplicity | CubePuzzleCheck/MainWindow.xaml.cs:1012-1023 | In a duplicate-free list every cell occurs once. |
| Equivalence.SameMultisetIffSameCells | CubePuzzleCheck/MainWindow.xaml.cs:1012-1023 | For duplicate-free lists, equal multisets and equal sets coincide. |
| Equivalence.SolvedIffSameNormalisedCells | CubePuzzleCheck/MainWindow.xaml.cs:971-1025 | For duplicate-free structures the check is: equal counts and equal sets of normalised cells. |
| Equivalence.CheckReflexive | CubePuzzleCheck/MainWindow.xaml.cs:971-1025 | Every structure solves itself. |
| Equivalence.CheckSymmetric | CubePuzzleCheck/MainWindow.xaml.cs:971-1025 | The verdict does not depend on which side is the target. |
| Equivalence.NormalizeShift | CubePuzzleCheck/MainWindow.xaml.cs:992-1004 | Normalising a translated structure gives the same list as normalising the original. |
| Equivalence.CheckTranslationInvariant | CubePuzzleCheck/MainWindow.xaml.cs:971-987 | Translating either structure by any vector leaves the verdict unchanged. |
| Equivalence.TranslatedCopySolves | CubePuzzleCheck/MainWindow.xaml.cs:971-987 | A translated copy of the target is accepted. |
| Equivalence.SameCellsSolve | CubePuzzleCheck/MainWindow.xaml.cs:971-1025 | A duplicate-free user structure with exactly the target's cells, in any order, is accepted. |
| Lattice.Neighbours | CubePuzzleCheck/MainWindow.xaml.cs:150-174 | Every listed neighbour is above or beside (±1 in x or z) the cube, and every in-bounds such cell is listed. For an in-bounds cube every listed neighbour is in bounds, so the list is exactly its in-bounds neighbours. |
| Lattice.Lowest | CubePuzzleCheck/MainWindow.xaml.cs:998-1000 | The per-axis minimum is a lower bound attained on each axis. |
| Lattice.Highest | CubePuzzleCheck/MainWindow.xaml.cs:357-362 | The per-axis maximum is an upper bound attained on each axis. |
| Lattice.LowestShift | CubePuzzleCheck/MainWindow.xaml.cs:998-1003 | The minimum of a translated structure is the translated minimum. |
| Lattice.LowestSameCells | CubePuzzleCheck/MainWindow.xaml.cs:998-1000 | The minimum depends only on the set of cells. |
| Silhouettes.FrameOf | CubePuzzleCheck/MainWindow.xaml.cs:357-367 | Every grid extent of a non-empty target is at least one. |
| Silhouettes.Paint | CubePuzzleCheck/MainWindow.xaml.cs:375-390 | After the loop an entry is set exactly when it was set before or some shown cube projects onto it. |
| Silhouettes.Calculate2DViews | CubePuzzleCheck/MainWindow.xaml.cs:351-398 | No views for an empty target. Otherwise there are keys Top, Left and Front: the x×z grid, the z×y grid (under "Left") and the x×y grid (under "Front"). Each is sized by the capped extents, and an entry is true exactly when a supported cube inside the frame projects onto it. |
| Silhouettes.ExtentsUncapped | CubePuzzleCheck/MainWindow.xaml.cs:365-367 | For in-bounds targets the cap at four never binds. |
| Silhouettes.SupportedTargetFullyShown | CubePuzzleCheck/MainWindow.xaml.cs:377-384 | For an in-bounds, support-closed target (every generated target is one) every cube is drawn. |
| Silhouettes.TopViewOfSupportedTarget | CubePuzzleCheck/MainWindow.xaml.cs:375-390 | For an in-bounds, support-closed target, a grid that depicts the top view marks (i, j) exactly when a cube stands at (minX+i, minZ+j). |
| Picking.Clamp | CubePuzzleCheck/MainWindow.xaml.cs:914-917 | In a non-empty range the result lies in the range, equals the value when it is inside, and is the nearest point of the range to it. |
| Picking.GroundCell | CubePuzzleCheck/MainWindow.xaml.cs:667-669 | The ground fallback's cell is on the ground, and its x and z are the hit point's rounded x and z clamped to [0,3]. |
| Picking.GetCubeTopIntersection | CubePuzzleCheck/MainWindow.xaml.cs:628-678 | Any returned cell passes the placement rule. Among qualifying top faces, the nearest (the first on a tie) wins. The ground cell is used only when no top face qualified, and exactly when it is hit and valid. |
| Picking.GetCubeIntersection | CubePuzzleCheck/MainWindow.xaml.cs:557-603 | Returns a cube of the user structure owning the nearest face hit (the first on a tie), and nothing exactly when no face is hit. |
| Picking.ColumnTop | CubePuzzleCheck/MainWindow.xaml.cs:893-896 | The highest y among the cubes in column (x, z), or nothing exactly when the column is empty. |
| Picking.SnapToGrid | CubePuzzleCheck/MainWindow.xaml.cs:886-912 | The result is the cell above the highest cube (user or target) of the clamped column when that cell is valid. Otherwise it is the column's ground cell when that is valid, and otherwise the origin. Any result other than the origin is a valid placement in the clamped column, and a raised position lies above every cube of its column and stands on one of them. |
| Editing.NewSession | CubePuzzleCheck/MainWindow.xaml.cs:84-247 | A new puzzle starts a consistent session: a well-formed target and a duplicate-free, in-bounds user structure no larger than the target. |
| Editing.AddCube | CubePuzzleCheck/MainWindow.xaml.cs:496-501 | The pick is appended exactly when it is a valid placement. Otherwise nothing changes. The target never changes, and consistency is kept. |
| Editing.IndexOf | CubePuzzleCheck/MainWindow.xaml.cs:531 | The index `List.Remove` uses: the first occurrence. |
| Editing.RemoveFirst | CubePuzzleCheck/MainWindow.xaml.cs:531 | `List.Remove` removes one occurrence when present and nothing otherwise. |
| Editing.RemoveCube | CubePuzzleCheck/MainWindow.xaml.cs:523-531 | Exactly the given cube is removed. Every other cube stays (no cascade), the target is unchanged and consistency is kept. |
| Editing.RemoveUndoesAdd | CubePuzzleCheck/MainWindow.xaml.cs:496-531 | Removing a cube just added restores the session exactly. |
| Editing.PrimaryGesture | CubePuzzleCheck/MainWindow.xaml.cs:490-510 | Whatever the top-face picking returns is added, so the bounds and occupancy tests in front of the placement rule never reject a pick. |
| Editing.SecondaryGesture | CubePuzzleCheck/MainWindow.xaml.cs:511-519 | A hit cube is a user cube and is removed exactly once. With no hit nothing changes. |
| Editing.RebuiltTargetSolves | CubePuzzleCheck/MainWindow.xaml.cs:971-987 | A consistent session whose user structure holds exactly the target's cells is solved. |
| Editing.MissingTargetCubeAddable | CubePuzzleCheck/MainWindow.xaml.cs:496-501 | A target cube the user lacks is always added when picked: it is in the grid, not a user cube, and stands on the ground or on a target cube. |
| Editing.Outside | CubePuzzleCheck/MainWindow.xaml.cs:184-247 | The cubes of one structure that the other lacks (the decoys, or the missing target cubes), in order and without repeats. |
| Editing.RemoveAll | CubePuzzleCheck/MainWindow.xaml.cs:523-531 | Removing a list of cubes one gesture at a time keeps the session consistent and leaves exactly the user cubes not in the list. |
| Editing.AddAll | CubePuzzleCheck/MainWindow.xaml.cs:496-501 | Adding a list of picks one gesture at a time keeps the session consistent and the target unchanged. |
| Editing.MissingTargetCubesAddable | CubePuzzleCheck/MainWindow.xaml.cs:496-501 | Missing target cubes can be added back in any order, each on its first pick. |
| Editing.PerturbedPuzzleSolvable | CubePuzzleCheck/MainWindow.xaml.cs:496-531 | Every consistent session, so every new puzzle, is solvable with the two gestures: removing each decoy and then adding each missing target cube rebuilds exactly the target's cells, and the check accepts the result. |

## Left out

- Editing.PerturbedPuzzleSolvable: the edits go through `AddCube` and `RemoveCube`, not through the mouse. It does not show that some mouse ray picks each missing cell. The window picks only the top faces of user cubes and the ground, so a player must add a missing cube before a missing cube that rests on it; the lemma adds them in target order.
- Rendering is not modelled: the scene graph, meshes, materials, the platform, the preview cube, the canvases that draw the views, and message boxes. None of it affects the structures.
- Camera orbit and ray construction (`UpdateCameraPosition`, `OnMouseMove`, `GetRayFromMouse`) are left out. They are trigonometric floating-point code, and their outcome enters the model only as the ray parameters and rounded ground coordinates handed to the picking functions.
- The mouse-button and Ctrl dispatch, mouse capture and rotation state are left out. They are input wiring; the two gestures are modelled as the methods they end in.
- The preview repositioning in `RemoveCube` (lines 533-552) is left out because it only moves the preview cube. It contains a quirk: `FirstOrDefault` on `Point3D` never yields null, so the origin branch at line 551 is unreachable.
- Picking.GetCubeTopIntersection and Picking.GetCubeIntersection: the initial `closestT = double.MaxValue` is modelled as "no bound yet". A hit at exactly `double.MaxValue` would not qualify in the window, but does in the model.
- Picking.GetCubeTopIntersection: the plane intersection, the `1e-6` parallel test, the 0.05 footprint tolerance and `Math.Round` (round half to even) are abstracted into the given hit values.
- Editing.RemoveCube: the `_cubeModels` dictionary is assumed to hold exactly the user cubes, so "the window knows the cube" is modelled as membership in the user list.
- Equivalence.AreStructurallyEquivalent: the sort and elementwise loop are modelled as an insertion sort and sequence equality. Comparing doubles is comparing the integer cells.
- The duplicate tests in the generation loops (`!_targetCubes.Any` and `!_userCubes.Any`) are kept as written. During growth the user list is empty, so the placement rule never looks at target occupancy (line 612). Only `!_targetCubes.Any` (lines 154 and 170) keeps target cells out of the growth candidates. In the decoy phase `!_userCubes.Any` (lines 215 and 233) is implied by the placement rule.
- Randomness is a choice oracle. A draw that is missing or out of range makes generation yield nothing. Generator.GenerateSucceeds shows that every oracle whose draws lie in range yields a puzzle. Generator.GenerateZeroDrawsFit shows that such oracles exist for every size and start cell. Which draws are in range depends on the candidate lists of earlier rounds, so the in-range condition is stated round by round along the run.
