# brae: models and proofs

Dafny models of the algorithms brae rests on, with proofs of what those algorithms promise.
`dafny verify dfyconfig.toml` checks everything. Doubles are modelled by exact reals, integers by unbounded ones; where
a width matters (32-bit words, 64-bit lengths, exact integers in a double) it is written out.

**Topology surgery.** `Meshes` is a polyhedral mesh with owner/neighbour lists and incidence lists. `CellRegions`
labels the cells that given internal faces merge, by in-place flood fill, and recounts the faces inside a region.
`EdgeCounts` decides which edges go, `FaceWalk` numbers the faces that merge across them, `Refinement` finds the
points that go, the faces affected, and emits the edits; `Surgery` says which edits a plan asks for. `Unrefinement`
puts the two calls together: whatever faces are pierced, the edits leave every surviving face with surviving points
and cells and with its owner below its neighbour. `SurvivingMesh` says of the old mesh alone which edges and points
go, which faces merge, and in which order, between which cells and on which patch every surviving face comes out.
Faces merged into one need not separate the same two cells: the decision compares region numbers, and -1 stands for
every cell without a region. No such claim is made.

**Sparse linear algebra.** `Ldu` is a matrix in owner/neighbour form, `Sums` and `Vectors` the algebra under it.
`Dilu` proves the two in-place sweeps an exact solve; `TwoColouring`, `RedBlackDilu` and `Renumbering` prove the
coloured form equal to the natural one on the renumbered mesh; `Neumann` the polynomial. `VCycle` proves the multigrid
cycle linear and self-adjoint, `PositiveCycle` and `Definite` positive definite, so it is a legal preconditioner for
conjugate gradients; `CycleResiduals` says what residual it leaves, level by level. `Aggregation` and `Coarsening`
build its levels. `CsrRows`, `CsrLayout`, `BuildCsr`, `AmgxCache` and `Converters` treat the two conversions to
compressed rows.

**The node agent.** `JsonText` is the printer and the parser as functions, `JsonParser` the parser object,
`JsonGrammar` a grammar in literal bytes and the proof that exactly its texts are accepted, `JsonReading`,
`JsonOverflow`, `JsonRoundTrip` and `JsonUnicode` what printer and parser promise together. `%.10g` and `strtod` are
inputs that may round: all that is asked of them is that a printed number is read as some number or as one beyond a
double, which `JsonLibrary` shows can be had. `PendingFile` is the result kept on disk, `AgentProtocol` agent, worker
thread, server and crash-prone disk as one state machine with every interleaving, and `Agent` the loop and the
executor as objects whose every visible effect is a step of that machine.

**Smaller pieces.** `Sha256` and `Sha256Constants` against FIPS 180-4, for any operations on words; `Uint32` puts in
those of 32-bit words, and `Sha256Example` works the standard's first example through; `Closure` for the two fixpoints
in the tooling. `Reachability` is the notion of reaching that all connectivity and closure claims use; `Basics` and
`Sequences` hold what several parts share.

## Where the code and what it says part

- `demo/amgpcg/make_steps.py:259-260` leaves the loop with the operator of the level above when an aggregation has no
  face left. The last two levels then do not fit. `Coarsening.LinkedExactly` says exactly when the levels fit;
  `Coarsening.StarCollapses` is three cells and a target of two where they do not.
- `bench/rhoSimpleFoam/u_precond_experiment.py:71-76`: the preconditioner is meant to have the diagonal of the matrix.
  `Dilu.ProductDiagonal` gives the exact difference. On a given addressing it vanishes for all coefficients exactly
  when no two faces join the same two cells (`Dilu.DiagonalKeptExactly`); `Dilu.TwinFacesBreakDiagonal` is a matrix
  where it does not.
- `bench/amgxFoam/amgxSolver.C:144` compares sizes, not addressing. `Converters.GuardExact` says this is enough
  exactly when the addressing did not change.
- `src/node/agent.cpp:89-128`: a result whose file is longer than the parser accepts is written but never found again,
  so a later job can replace it. `AgentProtocol.SavedIsPending` gives the exact limit,
  `AgentProtocol.LongResultReplaced` such a run; `AgentProtocol.JobsConserved` counts such results separately. A
  running time beyond a double ends the same way.
- A result is lost to a crash only before it is on disk. `src/node/agent.cpp:223` ignores whether the write succeeded;
  the model assumes it does.

## Model

| member | source | states |
|---|---|---|
| `CellRegions.ChangeCellRegion` | tools/dumpHexRef8/removeFacesDump.C:86-107 | only cells of the old label change, and only to the new one; when the flood returns no cell beside a renamed one keeps the old label, except on the stack of the caller |
| `CellRegions.FloodCovers` | tools/dumpHexRef8/removeFacesDump.C:661-737 | because a region is connected by the faces already processed, the flood from one side renames all of it |
| `CellRegions.MergeRegions` | tools/dumpHexRef8/removeFacesDump.C:676-732 | both regions end with the lower of their two labels; the labels kept and freed are reported |
| `CellRegions.JoinKeepsRegions` | tools/dumpHexRef8/removeFacesDump.C:651-737 | each way of processing a face keeps labels sound, complete, and masters lowest |
| `CellRegions.JoinFaces` | tools/dumpHexRef8/removeFacesDump.C:640-738 | after the loop over the faces the labels and masters are those of the regions joined so far |
| `CellRegions.CheckRegions` | tools/dumpHexRef8/removeFacesDump.C:741-777 | the checks pass only if every live region starts at its master and none is a single cell; each refusal names a region where that fails |
| `CellRegions.RegionsPassChecks` | tools/dumpHexRef8/removeFacesDump.C:741-777 | labels that agree across the pierced faces leave no region of one cell |
| `CellRegions.RecountFaces` | tools/dumpHexRef8/removeFacesDump.C:781-794 | the recount lists each internal face inside one region once, in face order |
| `CellRegions.CountUsedRegions` | tools/dumpHexRef8/removeFacesDump.C:766-777 | the count returned is the number of live regions |
| `CellRegions.InvariantsGiveComponents` | tools/dumpHexRef8/removeFacesDump.C:619-797 | soundness and completeness together are: same label if and only if linked by the given faces |
| `CellRegions.CompatibleRemoves` | tools/dumpHexRef8/removeFacesDump.C:619-797 | accepts exactly the lists of internal faces, so neither consistency exit can be taken; then labels are the connected components of the touched cells, each master is the lowest cell of its component, and the face list is the recount |
| `CellRegions.OutputIsPierced` | tools/dumpHexRef8/removeFacesDump.C:781-794 | the face list is the declarative closure: the internal faces whose two cells the given faces link |
| `CellRegions.PiercedExtensive` | tools/dumpHexRef8/removeFacesDump.C:781-794 | every given face is in the result |
| `CellRegions.PiercedIdempotent` | tools/dumpHexRef8/removeFacesDump.C:781-794 | giving the result back changes nothing |
| `CellRegions.PiercedMonotone` | tools/dumpHexRef8/removeFacesDump.C:781-794 | more faces in, no fewer out |
| `CellRegions.OrderIndependent` | tools/dumpHexRef8/removeFacesDump.C:619-797 | two orders of the same faces give the same list of faces, the same partition of the cells and the same masters |
| `EdgeCounts.CountFaceEdges` | tools/dumpHexRef8/removeFacesDump.C:861-880 | the counter of every edge touched by a removed face becomes the number of its faces that stay; untouched edges keep the sentinel |
| `EdgeCounts.CountEdgeUse` | tools/dumpHexRef8/removeFacesDump.C:857-923 | refuses exactly if an edge that no removed face touches has fewer than two faces, and names one; otherwise every touched edge has the exact number of its faces that stay, and an untouched one its number of faces if more than two, else the sentinel |
| `EdgeCounts.RemainingDropsOne` | tools/dumpHexRef8/removeFacesDump.C:861-880 | taking out one more face lowers the number left on an edge by one exactly when that edge carries it |
| `EdgeCounts.FirstTwoKept` | tools/dumpHexRef8/removeFacesDump.C:954-976 | the two faces found on an edge are its first two that stay |
| `EdgeCounts.DecideEdge` | tools/dumpHexRef8/removeFacesDump.C:950-1066 | merge, preserve or refuse: by patches, feature angle and region numbers, exactly as decided |
| `EdgeCounts.FilterEdges` | tools/dumpHexRef8/removeFacesDump.C:950-1066 | refuses exactly when some edge is left between an internal and a boundary face; else its counters are the declared ones, 3 marking an edge that must stay |
| `EdgeCounts.CheckEdges` | tools/dumpHexRef8/removeFacesDump.C:1072-1086 | refuses exactly if some edge would keep one face |
| `EdgeCounts.CollectEdges` | tools/dumpHexRef8/removeFacesDump.C:1145-1168 | the edges to remove are exactly those with none or two faces left |
| `FaceWalk.ChangeFaceRegion` | tools/dumpHexRef8/removeFacesDump.C:111-164 | one walk numbers exactly the kept faces reachable from its start across counted edges, and returns how many |
| `FaceWalk.WalkNumbersComponent` | tools/dumpHexRef8/removeFacesDump.C:1206-1220 | a walk started on an unnumbered face numbers its whole component |
| `FaceWalk.WalkFindsComponent` | tools/dumpHexRef8/removeFacesDump.C:1206-1232 | a walk from an unnumbered face finds exactly its component, so it returns one if and only if the face is alone in it |
| `FaceWalk.WalkFoundSingle` | tools/dumpHexRef8/removeFacesDump.C:1220-1232 | taking a walk of one back to -2 leaves the numbering sound, with no number used up |
| `FaceWalk.WalkFaces` | tools/dumpHexRef8/removeFacesDump.C:1188-1233 | the loop ends with the numbers of the connected components: singletons -2, the others dense |
| `FaceWalk.NumberedGivesComponents` | tools/dumpHexRef8/removeFacesDump.C:1188-1233 | equal numbers if and only if joined; every number is used and has at least two faces |
| `Surgery.Record` | tools/dumpHexRef8/removeFacesDump.C:1436-1582 | an action for a new entity keeps the list free of second actions for any entity |
| `Refinement.CountPointUse` | tools/dumpHexRef8/removeFacesDump.C:1324-1344 | the count of every point is the number of its edges that stay |
| `Refinement.FindPointsToRemove` | tools/dumpHexRef8/removeFacesDump.C:1315-1384 | refuses exactly if some point would keep one edge; else the points removed are those left with none or two |
| `Refinement.GetFacesAffected` | tools/dumpHexRef8/removeFacesDump.C:172-227 | marks exactly the faces on a removed cell, removed themselves, or on a removed edge or point |
| `Refinement.FilterPoints` | tools/dumpHexRef8/removeFacesDump.C:486-509 | the filtered face is the old one without the removed points, in order |
| `Refinement.MergeFaces` | tools/dumpHexRef8/removeFacesDump.C:380-450 | the actions recorded gain exactly the faces of the region: the master modified, every other face removed into it |
| `Refinement.MergeAllRegions` | tools/dumpHexRef8/removeFacesDump.C:1474-1520 | fails exactly if some region has no outside loop or fewer than two faces; else every region is merged |
| `Refinement.ModifyRemaining` | tools/dumpHexRef8/removeFacesDump.C:1527-1582 | each face still marked gets one modification, the others none |
| `Refinement.InvertOneToMany` | tools/dumpHexRef8/removeFacesDump.C:1474-1478 | the lists per region hold each numbered face once |
| `Refinement.EmitAll` | tools/dumpHexRef8/removeFacesDump.C:1404-1583 | succeeds exactly if every region has an outside loop and more than one face; then the actions emitted are exactly one for each entity the plan edits, and the one the plan says; each error names a region at fault |
| `Unrefinement.DecideEdges` | tools/dumpHexRef8/removeFacesDump.C:857-1183 | succeeds exactly if the faces are internal, every edge they do not touch has two faces, no edge is left between an internal and a boundary face, and none keeps one face; each of the four errors names a face or edge at fault in the first phase that finds one; on success the edges to remove and the face walk are the declared ones |
| `Unrefinement.SetRefinement` | tools/dumpHexRef8/removeFacesDump.C:800-1583 | succeeds exactly if the edge phases do, no point would keep one edge, and every patch of faces the walk joins has one outside loop; then the added actions are exactly those of the plan the phases decided, behind the earlier ones; each error has its cause, and a region of one face is never one |
| `Unrefinement.LoopsArePatches` | tools/dumpHexRef8/removeFacesDump.C:1474-1520 | whether every region has its loop depends on the patches only, not on how the regions are numbered |
| `Unrefinement.RegionsHaveTwoFaces` | tools/dumpHexRef8/removeFacesDump.C:1492-1502 | every merged region has at least two faces, so the "contains only faces" exit cannot be taken |
| `Unrefinement.CellAfterSurvives` | tools/dumpHexRef8/removeFacesDump.C:1527-1556 | the cell that takes a cell's place is never removed and is the lowest of its component |
| `Unrefinement.RecountExact` | tools/dumpHexRef8/removeFacesDump.C:781-794 | a face is taken out if and only if its two cells become one |
| `Unrefinement.SurvivorsWellFormed` | tools/dumpHexRef8/removeFacesDump.C:513-594 | every surviving face, edited or not, names surviving points and cells only, its sides are the replaced cells, and an internal one keeps owner below neighbour |
| `Unrefinement.MergedIntoMaster` | tools/dumpHexRef8/removeFacesDump.C:380-450 | of each merged region exactly the master survives and the others are removed into it |
| `Unrefinement.PointsSurvive` | tools/dumpHexRef8/removeFacesDump.C:486-509 | no surviving face mentions a removed point |
| `SurvivingMesh.SurvivorOriented` | tools/dumpHexRef8/removeFacesDump.C:486-594 | a surviving face, merged or not, lists its old points (the loop's, if faces merged into it) without those removed, in the old order where its owner took the place of the old owner, and from the end where its owner took the place of the old neighbour |
| `SurvivingMesh.PatchKept` | tools/dumpHexRef8/removeFacesDump.C:540-594 | a surviving boundary face keeps its patch, an internal one has none |
| `SurvivingMesh.SurvivesExactly` | tools/dumpHexRef8/removeFacesDump.C:1404-1433 | a face survives if and only if it is neither removed nor merged into another; a removed one is removed into nothing |
| `SurvivingMesh.CellsMerge` | tools/dumpHexRef8/removeFacesDump.C:1446-1470 | a cell goes if and only if the pierced faces link it to a lower one, and it is merged into the cell that takes its place |
| `SurvivingMesh.EdgesGoExactly` | tools/dumpHexRef8/removeFacesDump.C:950-1168 | an edge goes if and only if a removed face is on it and the faces staying on it are none, or two that are of one patch at no sharp angle, or internal and between the same two regions |
| `SurvivingMesh.PointsGoExactly` | tools/dumpHexRef8/removeFacesDump.C:1315-1384 | a point goes if and only if none or two of its edges stay |
| `SurvivingMesh.JoinedAcrossGone` | tools/dumpHexRef8/removeFacesDump.C:1188-1233 | faces merge if and only if a chain of staying faces, each sharing an edge that goes with the next, leads from one to the other |
| `SurvivingMesh.JoinedAlike` | tools/dumpHexRef8/removeFacesDump.C:978-1010 | so merged faces lie all on one patch, or are all internal and between the same two regions |
| `Unrefinement.PierceAndRefine` | tools/dumpHexRef8/dumpHexRef8.C:306-309 | compatibleRemoves followed by setRefinement on its outputs: the first succeeds exactly on internal faces, the second exactly when its phases and loops allow; then the edits are exact and all survivors intact; two of the fatal exits are impossible |
| `VCycle.RunAdjoint` | demo/amgpcg/make_steps.py:334-376 | the adjoint of a list of corrections is the list of adjoints backwards |
| `VCycle.CycleRun` | demo/amgpcg/make_steps.py:334-376 | one cycle is such a list: sweeps, coarse correction, sweeps; what the correction is worth is said by CycleResiduals.CoarseCorrected |
| `VCycle.SmoothSelfAdjoint` | demo/amgpcg/make_steps.py:314-316 | damped Jacobi is self-adjoint |
| `VCycle.GalerkinApplies` | demo/amgpcg/make_steps.py:201-210 | the coarse operator acts as restrict, apply, prolong |
| `VCycle.GalerkinSelfAdjoint` | demo/amgpcg/make_steps.py:201-210 | and stays self-adjoint |
| `VCycle.LevelsSelfAdjoint` | demo/amgpcg/make_steps.py:213-270 | every level operator of a linked hierarchy is self-adjoint |
| `VCycle.CycleSelfAdjoint` | demo/amgpcg/make_steps.py:334-376 | for every symmetric operator, every linked hierarchy with non-zero diagonals and equal pre- and post-sweeps: dot(B b, c) = dot(b, B c) |
| `VCycle.CycleLinear` | demo/amgpcg/make_steps.py:334-376 | the cycle from zero is linear |
| `CycleResiduals.SweepsResidual` | demo/amgpcg/make_steps.py:314-316 | k damped sweeps leave the k-th power of I - omega A D^-1 applied to the residual |
| `CycleResiduals.CoarsestResidual` | demo/amgpcg/make_steps.py:334-347 | so does the whole cycle on the coarsest level |
| `CycleResiduals.CycleResidual` | demo/amgpcg/make_steps.py:349-376 | above it: the residual is damped, A P x_c is taken off, x_c being the answer of the level below to what its P^T makes of it, and the rest is damped again |
| `CycleResiduals.CoarseCorrected` | demo/amgpcg/make_steps.py:349-376 | without sweeps behind it, the sums over each coarse cell of the residual the cycle leaves are the residual the cycle below leaves of its own equation |
| `CycleResiduals.ProlongCopies` | demo/amgpcg/make_steps.py:201-210 | prolongation copies a coarse value to every cell of its aggregate |
| `CycleResiduals.RestrictSums` | demo/amgpcg/make_steps.py:201-210 | restriction sums over an aggregate |
| `Definite.EnergyBound` | demo/amgpcg/make_steps.py:314-316 | for non-positive couplings and non-negative row sums the energy lies between zero and twice the diagonal one |
| `Definite.GalerkinDiffusive` | demo/amgpcg/make_steps.py:201-210 | injection coarsening keeps that class of operators |
| `PositiveCycle.CyclePositive` | demo/amgpcg/make_steps.py:334-376 | corrections of non-negative energy around a positive one make a positive cycle |
| `Definite.CycleDefinite` | demo/amgpcg/make_steps.py:334-376 | for that class and 0 < omega < 1 the cycle is positive definite: dot(B b, b) > 0 for every b other than zero |
| `Dilu.ReciprocalD` | bench/rhoSimpleFoam/u_precond_experiment.py:72-76 | the face loop computes the pivots, provided none it divides by is zero |
| `Dilu.ForwardSweep` | bench/rhoSimpleFoam/u_precond_experiment.py:80-81 | the in-place forward sweep leaves the values defined by forward substitution |
| `Dilu.BackwardSweep` | bench/rhoSimpleFoam/u_precond_experiment.py:82-84 | the in-place backward sweep leaves those of backward substitution |
| `Dilu.Apply` | bench/rhoSimpleFoam/u_precond_experiment.py:78-85 | the returned w satisfies M w = r for every r |
| `Dilu.ExactInverse` | bench/rhoSimpleFoam/u_precond_experiment.py:71-85 | substitution forward and back inverts (D*+L) D*^-1 (D*+U) |
| `Dilu.ProductInjective` | bench/rhoSimpleFoam/u_precond_experiment.py:71-85 | M is injective, so w is the only solution |
| `Dilu.ProductDiagonal` | bench/rhoSimpleFoam/u_precond_experiment.py:71-76 | the diagonal of M is that of A plus an exact cross term of pairs of faces with the same two cells |
| `Dilu.DiagonalKept` | bench/rhoSimpleFoam/u_precond_experiment.py:71-76 | without two faces between the same cells the two diagonals are equal |
| `Dilu.DiagonalKeptExactly` | bench/rhoSimpleFoam/u_precond_experiment.py:71-76 | the two diagonals are equal for all coefficients with non-zero pivots if and only if no two faces join the same two cells |
| `Dilu.TwinFacesBreakDiagonal` | bench/rhoSimpleFoam/u_precond_experiment.py:71-76 | a concrete matrix with twin faces where they differ |
| `RedBlackDilu.ReciprocalD` | bench/rhoSimpleFoam/eps_precond_experiment.py:131-137 | the scattered pivots: red ones the diagonal, black ones corrected by every red neighbour |
| `RedBlackDilu.GatherBlack` | bench/rhoSimpleFoam/eps_precond_experiment.py:144-147 | the forward scatter gathers into each black cell the sum over its faces |
| `RedBlackDilu.GatherRed` | bench/rhoSimpleFoam/eps_precond_experiment.py:148-152 | the backward scatter gathers into each red cell |
| `RedBlackDilu.Apply` | bench/rhoSimpleFoam/eps_precond_experiment.py:140-153 | two scatter steps forward and back give the red-black substitutions |
| `Renumbering.SameOperator` | bench/rhoSimpleFoam/eps_precond_experiment.py:127-153 | the mesh renumbered red cells first, faces reoriented and sorted, has the same operator |
| `Renumbering.OrderExists` | bench/rhoSimpleFoam/eps_precond_experiment.py:127-153 | every coloured matrix has such a numbering |
| `Renumbering.AllPivotsMoved` | bench/rhoSimpleFoam/eps_precond_experiment.py:127-137 | its natural-order pivots are the red-black ones moved |
| `Renumbering.RedBlackIsNatural` | bench/rhoSimpleFoam/eps_precond_experiment.py:114-153 | red-black DILU equals natural-order DILU on the renumbered mesh, for every r |
| `TwoColouring.Advance` | bench/rhoSimpleFoam/eps_precond_experiment.py:57-60 | a wave colours the fresh neighbours and keeps agreement with every proper colouring |
| `TwoColouring.TwoColour` | bench/rhoSimpleFoam/eps_precond_experiment.py:54-61 | the verdict is yes if and only if a proper two-colouring exists and every cell is reachable from the first; then the colouring is proper |
| `Neumann.Apply` | bench/rhoSimpleFoam/u_precond_experiment.py:61-69 | the loop returns the truncated series |
| `Neumann.PowerIsScaledError` | bench/rhoSimpleFoam/u_precond_experiment.py:61-69 | its k-th term is the scaled k-th power of I - A D^-1 applied to r |
| `Neumann.SeriesResidual` | bench/rhoSimpleFoam/u_precond_experiment.py:61-69 | k terms leave the residual (I - A D^-1)^k r |
| `Neumann.SeriesIsJacobi` | demo/amgpcg/make_steps.py:314-316 | k terms are k undamped Jacobi sweeps from zero |
| `Aggregation.FindStrongest` | demo/amgpcg/make_steps.py:165-173 | the search loop finds the first eligible face of greatest weight |
| `Aggregation.StrongestIs` | demo/amgpcg/make_steps.py:165-173 | it is eligible, none is stronger, and none is found only if none is eligible above -1 |
| `Aggregation.StrongestFirst` | demo/amgpcg/make_steps.py:165-173 | of several heaviest faces it is the first |
| `Aggregation.SearchFinds` | demo/amgpcg/make_steps.py:165-173 | the search finds the first heaviest face above -1 to a free (or taken) cell, and none only if there is none |
| `Aggregation.PlaceCell` | demo/amgpcg/make_steps.py:160-196 | the three branches for one cell |
| `Aggregation.PairwiseAggregate` | demo/amgpcg/make_steps.py:146-198 | the in-place sweep over the cells gives the declared map and count |
| `Aggregation.PlaceMoves` | demo/amgpcg/make_steps.py:160-196 | each turn is one of: nothing for a placed cell; a new pair, through the first of the heaviest faces to a free cell; attachment, only if no face above -1 leads to a free cell, through the first of the heaviest faces to a taken one; a cell on its own, only if no face above -1 leads anywhere |
| `Aggregation.SweepConnected` | demo/amgpcg/make_steps.py:146-198 | aggregates are connected by faces inside them |
| `Aggregation.SweepMates` | demo/amgpcg/make_steps.py:146-198 | with weights above -1 only isolated cells are alone |
| `Aggregation.AggregatesAll` | demo/amgpcg/make_steps.py:146-198 | every cell is placed, every number used and every aggregate connected, whatever the weights; with weights above -1 only isolated cells are alone, and twice the aggregates are at most cells plus isolated cells |
| `Coarsening.PairSumsAre` | demo/amgpcg/make_steps.py:246-257 | a pair of aggregates is listed if and only if a face joins them, with the joint weight |
| `Coarsening.CoarseGraphIs` | demo/amgpcg/make_steps.py:262-266 | coarse faces: every touching pair once, owner below neighbour, sorted, joint weight |
| `Coarsening.CoarseConnected` | demo/amgpcg/make_steps.py:246-266 | a connected graph stays connected |
| `Coarsening.Halves` | demo/amgpcg/make_steps.py:235-240 | with weights above -1 a connected graph of at least two cells at least halves |
| `Coarsening.BuildLevels` | demo/amgpcg/make_steps.py:213-270 | for every graph, whatever its weights, the loop ends and returns the declared list of levels |
| `Coarsening.FacesGoneExactly` | demo/amgpcg/make_steps.py:259-260 | for a connected graph no coarse face is left if and only if one aggregate is |
| `Coarsening.LinkedExactly` | demo/amgpcg/make_steps.py:259-270 | for every graph, the levels fit together if and only if no aggregation on the way down ends without a face |
| `Coarsening.StarCollapses` | demo/amgpcg/make_steps.py:259-260 | a star of three cells with target 2 where they do not: the last operator has the wrong size |
| `Coarsening.FewLevels` | demo/amgpcg/make_steps.py:229-268 | with weights not negative, 2^(levels-1) is at most the number of cells of a connected graph |
| `Coarsening.LevelsShrink` | demo/amgpcg/make_steps.py:229-268 | without that collapse each level is smaller than the one above and every level above the last is larger than the target |
| `Coarsening.LevelsReachTarget` | demo/amgpcg/make_steps.py:229-268 | with weights not negative, on a connected graph, the last operator is no larger than the target, or than one cell |
| `Coarsening.BuiltHierarchy` | demo/amgpcg/make_steps.py:213-270 | for every graph, a hierarchy built without that collapse is one the V-cycle results apply to |
| `CsrRows.RowDotIsAmul` | demo/amgpcg/trace_amgx.c:185-204 | a collected row's product is the diagonal term plus what each face gathers |
| `CsrRows.SortedSorts` | demo/amgpcg/trace_amgx.c:206-226 | insertion sorts the row and keeps its coefficients |
| `CsrRows.RowOrderUnique` | bench/amgxFoam/amgxSolver.C:164-165 | without twin faces a row has only one sorted order |
| `CsrLayout.CountStored` | demo/amgpcg/trace_amgx.c:177-183 | n + 2 nFaces coefficients in all |
| `CsrLayout.OneLayout` | demo/amgpcg/trace_amgx.c:161-230 | the rows determine the three arrays |
| `CsrLayout.RowsMultiply` | demo/amgpcg/trace_amgx.c:233-252 | whatever the order inside rows, the row product is Amul |
| `CsrLayout.Residual` | demo/amgpcg/trace_amgx.c:233-252 | the residual loop computes rhs - A x |
| `BuildCsr.CountEntries` | demo/amgpcg/trace_amgx.c:167-173 | the counts are the row lengths |
| `BuildCsr.StartRows` | demo/amgpcg/trace_amgx.c:175-183 | the prefix sums are the row starts |
| `BuildCsr.PutEntry` | demo/amgpcg/trace_amgx.c:192-204 | one entry goes to its row's cursor, every other collected entry stays |
| `BuildCsr.MoveDown` | demo/amgpcg/trace_amgx.c:211-225 | the inner loop inserts one entry into the sorted slots below it and touches nothing else |
| `BuildCsr.SortRow` | demo/amgpcg/trace_amgx.c:208-226 | one row sorted in place, all other slots unchanged |
| `BuildCsr.BuildCsr` | demo/amgpcg/trace_amgx.c:161-230 | count, prefix sums, scatter and sort give exactly the arrays of the sorted rows |
| `AmgxCache.LibrarySort` | bench/amgxFoam/amgxSolver.C:164-165 | sorted by column, same entries; nothing about ties |
| `AmgxCache.LayRow` | bench/amgxFoam/amgxSolver.C:166-175 | each entry gets the next slot, and its map remembers it |
| `AmgxCache.PositionsAreBijection` | bench/amgxFoam/amgxSolver.C:144-177 | diagPos, upperPos and lowerPos behind one another are a rearrangement of 0 .. nCells + 2 nFaces - 1 |
| `AmgxCache.Refill` | bench/amgxFoam/amgxSolver.C:249-251 | the coefficient loops leave every slot with its own coefficient |
| `AmgxCache.Cache.Update` | bench/amgxFoam/amgxSolver.C:144-245 | after every solve the arrays stand for the matrix: rebuilt, or the held addressing with the new coefficients |
| `Converters.ArraysMultiply` | demo/amgpcg/trace_amgx.c:233-252 | the slot loop over either converter's arrays equals Amul |
| `Converters.BuiltMultiplies` | demo/amgpcg/trace_amgx.c:161-252 | so the arrays that the building loops leave multiply like the matrix, row for row |
| `Converters.OrderForcedExactly` | bench/amgxFoam/amgxSolver.C:153-163 | the sorted order is forced if and only if no two faces join the same two cells |
| `Converters.ConvertersAgree` | bench/amgxFoam/amgxSolver.C:153-177 | then both converters give the same rowPtr, colIdx and values |
| `Converters.ReplacedIsRebuilt` | bench/amgxFoam/amgxSolver.C:235-251 | coefficient replacement leaves what a rebuild in the same row order gives |
| `Converters.GuardExact` | bench/amgxFoam/amgxSolver.C:144 | passing the size guard is safe for all coefficients if and only if owner and neighbour lists are unchanged |
| `Converters.StaleAddressing` | bench/amgxFoam/amgxSolver.C:144 | two meshes of equal sizes where it is not |
| `JsonParser.SetFirst` | src/node/json.cpp:212-218 | a key already present keeps its place and takes the new value, every other member stays; a new key is appended |
| `JsonParser.Parser.FourDigits` | src/node/json.cpp:66-75 | the digit loop computes the four-digit value or fails |
| `JsonParser.Parser.ReadString` | src/node/json.cpp:39-117 | the loop over bytes and escapes does what the grammar of strings says, error and position included |
| `JsonParser.Parser.SetMember` | src/node/json.cpp:212-218 | the overwriting loop |
| `JsonParser.Parser.ReadValue` | src/node/json.cpp:120-184 | the recursive parser does what the grammar of values says, never deeper than the limit |
| `JsonParser.ParseText` | src/node/json.cpp:293-309 | the whole parse, error cases included, equals the grammar |
| `JsonGrammar.AcceptsExactly` | src/node/json.cpp:20-309 | the parser accepts a text with value v if and only if the text derives from a tree of meaning v by a grammar written in literal bytes: blanks, tabs, line feeds and carriage returns round every token, the escapes of strings, no more than 32 levels and 1 MiB |
| `JsonGrammar.TreeRead` | src/node/json.cpp:120-184 | whatever derives is read to its end, with the meaning of its tree |
| `JsonGrammar.ReadTree` | src/node/json.cpp:120-184 | whatever is read derives |
| `JsonGrammar.StringRead` | src/node/json.cpp:39-117 | a string of plain bytes, short escapes, units and surrogate pairs is read as what they spell |
| `JsonGrammar.ReadString` | src/node/json.cpp:39-117 | whatever is read as a string is such pieces between quotes |
| `JsonGrammar.SkippedBlanks` | src/node/json.cpp:20-24 | exactly the bytes 0x20, 0x09, 0x0A and 0x0D are skipped, as many as there are |
| `JsonReading.StringReads` | src/node/json.cpp:226-252 | any byte string survives escaping and reading |
| `JsonReading.NumberReads` | src/node/json.cpp:261-270 | any integer up to 2^53 in magnitude survives printing and reading |
| `JsonReading.ValueReads` | src/node/json.cpp:254-291 | a printed value is read back, its numbers rounded as printing rounds them, wherever it stands in a text |
| `JsonReading.AcceptedFits` | src/node/json.cpp:120-184 | whatever is accepted has distinct keys and respects the depth limit |
| `JsonOverflow.ValueFails` | src/node/json.cpp:173-181 | a printed value with a number beyond a double is refused wherever it stands |
| `JsonLibrary.CoarseIsSound` | src/node/json.cpp:173-181 | there is a number library that meets what the agent results ask of one, and it rounds |
| `JsonRoundTrip.RoundTripRounded` | src/node/json.cpp:254-309 | for every value: parse(dump(v)) is v with its numbers rounded if and only if none overflows, keys are distinct, depth is within 32 and the text within 1 MiB |
| `JsonRoundTrip.RoundTrip` | src/node/json.cpp:254-309 | for values whose numbers printing does not change, parse(dump(v)) is v if and only if keys are distinct, depth is within 32 and the text within 1 MiB |
| `JsonRoundTrip.DumpInjective` | src/node/json.cpp:254-291 | different such values print differently |
| `JsonRoundTrip.ReadAgain` | src/node/json.cpp:293-309 | reading, printing and reading again changes nothing |
| `JsonUnicode.Utf8Exact` | src/node/json.cpp:96-110 | the bytes written for a code point are its UTF-8 form and the only one |
| `JsonUnicode.EscapeMeans` | src/node/json.cpp:60-112 | a well-formed escape or surrogate pair is read as the UTF-8 of its code point |
| `PendingFile.LoadsWhatWasSaved` | src/node/agent.cpp:89-128 | a record whose running time printing does not change is loaded as it was if the file is at most 1 MiB, and nothing is loaded if it is longer |
| `PendingFile.LoadsRounded` | src/node/agent.cpp:89-128 | what was saved is loaded, its running time rounded as printing rounds it, if the file is at most 1 MiB and the time does not overflow; else nothing is |
| `PendingFile.LongResultNotLoaded` | src/node/agent.cpp:89-128 | a result of a mebibyte or more makes a file that is never loaded, whatever the number library does |
| `Backoff.ResultBackoffSeconds` | src/node/backoff.h:21-27 | the doubling loop computes min(60, 2^(k+1)) |
| `Backoff.DelayGrows` | src/node/backoff.h:21-27 | the wait never shrinks and stays between 2 and 60 seconds |
| `Backoff.ClampSnapshotInterval` | src/node/backoff.h:35-40 | the nearest interval between 5 and 60 seconds |
| `AgentProtocol.StepInv` | src/node/agent.cpp:29-60 | every step of loop thread, worker, server and crash keeps the invariant |
| `AgentProtocol.StepLives` | src/node/agent.cpp:142-231 | every step is a step of the life of one job at a time: assigned, started, done, undelivered, recorded |
| `AgentProtocol.SavedIsPending` | src/node/agent.cpp:89-109 | a written result is pending, its running time rounded, if and only if its file is at most 1 MiB and its running time does not overflow |
| `AgentProtocol.LongResultReplaced` | src/node/agent.cpp:89-128 | a first job with a result of a mebibyte or more is written, is never offered to the server, and is replaced on disk by the next job's result: a concrete run |
| `AgentProtocol.StartFindsIdle` | src/node/agent.cpp:172-211 | in every interleaving the executor is started only when idle with its last outcome collected |
| `AgentProtocol.TakesOwnOutcome` | src/node/agent.cpp:49-58 | the outcome taken is the running job's |
| `AgentProtocol.JoinFindsFinished` | src/node/agent.cpp:49-58 | a running executor implies a job in hand; joining finds the thread finished |
| `AgentProtocol.ResultStaysUntilAcknowledged` | src/node/agent.cpp:142-168 | a readable result changes on disk only after that job's acknowledgement, and never beside a running job |
| `AgentProtocol.AcknowledgedByServer` | src/node/agent.cpp:151-161 | an acknowledgement is the server's ok or conflict for that job |
| `AgentProtocol.JobsOnlyOnRequest` | src/node/agent.cpp:172-211 | a job is accepted only while the latest answer of the server, since the start or the last crash, allows it, and with nothing in hand or undelivered |
| `AgentProtocol.JobsConserved` | src/node/agent.cpp:142-231 | over any run with crashes: accepted jobs are delivered, in hand, taken by a crash, or written unreadably; each started job has its outcome taken once unless under way or killed by a crash |
| `AgentProtocol.FailuresCounted` | src/node/agent.cpp:164-168 | the attempt counter is the number of refusals in a row |
| `AgentProtocol.AttemptsSpaced` | src/node/agent.cpp:148-168 | after the k-th refusal in a row the next attempt reads a clock at least min(60, 2^(k+1)) seconds later |
| `Agent.ThreadedExecutor.WorkerStep` | src/node/agent.cpp:36-43 | the thread first stores the outcome under the job's own id, then lowers the flag |
| `Agent.AgentLoop.SavePendingResult` | src/node/agent.cpp:89-109 | the file holds the record, and nothing says a job is running any more |
| `Agent.AgentLoop.ClearPendingResult` | src/node/agent.cpp:130-133 | the file is gone and the waiting time reset |
| `Agent.AgentLoop.SendSnapshot` | src/node/agent.cpp:238-285 | acceptance and interval follow the answer; the offered job is taken exactly if granted and nothing stands in its way |
| `Agent.ThreadedExecutor.Start` | src/node/agent.cpp:29-44 | starts the job unless one is running |
| `Agent.ThreadedExecutor.TakeOutcome` | src/node/agent.cpp:49-58 | hands over the outcome exactly if idle, uncollected and joinable |
| `Agent.AgentLoop.Elapse` | src/node/agent.cpp:36-43 | any progress of the worker between two reads is a sequence of worker steps |
| `Agent.AgentLoop.ReportPendingIfAny` | src/node/agent.cpp:142-168 | nothing, a refused attempt, or an attempt and the deletion: exactly as file, clock and answer say |
| `Agent.AgentLoop.CollectFinishedJob` | src/node/agent.cpp:213-231 | a finished job is taken, saved and offered at once; an unfinished one is left |
| `Agent.AgentLoop.MaybeTakeJob` | src/node/agent.cpp:172-211 | a job is accepted exactly when nothing is in hand, acceptance is on and nothing is undelivered |
| `Agent.AgentLoop.Tick` | src/node/agent.cpp:233-285 | a pass extends the run of the protocol, with collection, reporting and job taking in their order |
| `Sha256Constants.RoundConstants` | src/node/sha256.cpp:10-18 | the 64 constants are the first 32 cube-root bits of the 64 listed primes, in order |
| `Sha256Constants.InitialHash` | src/node/sha256.cpp:26-27 | the eight initial words are the first 32 square-root bits of the first eight of them |
| `Sha256.PaddedFits` | src/node/sha256.cpp:29-33 | padding gives whole blocks and no more than needed |
| `Sha256.PaddedInjective` | src/node/sha256.cpp:29-33 | different messages are padded differently |
| `Sha256.LengthReads` | src/node/sha256.cpp:33 | the last eight bytes are the length in bits |
| `Sha256.Pad` | src/node/sha256.cpp:29-33 | the loops compute the padding of FIPS 180-4 section 5.1.1 |
| `Sha256.FillSchedule` | src/node/sha256.cpp:37-46 | the array is the recursive message schedule, whatever the word operations |
| `Sha256.Compress` | src/node/sha256.cpp:48-58 | 64 rounds over rotating variables are the recursive rounds of section 6.2.2 |
| `Sha256.Hash` | src/node/sha256.cpp:26-60 | the block loop computes the eight words of the hash |
| `Sha256.DigestSpells` | src/node/sha256.cpp:62-64 | each group of eight hex digits spells its word of the hash |
| `Sha256.BlocksChain` | src/node/sha256.cpp:35-60 | every block takes up where the one before left off, from the first block on |
| `Uint32.ChooseSelects` | src/node/sha256.cpp:52 | for all words: the second where the first is set, the third elsewhere |
| `Uint32.MajorityCounts` | src/node/sha256.cpp:55 | for all words: set where at least two are |
| `Uint32.RotrTurns` | src/node/sha256.cpp:20 | the two shifts are a rotation, for every distance used |
| `Uint32.BigSigma0Is` | src/node/sha256.cpp:54 | for all words: the sum without carry of the rotations by 2, 13 and 22 |
| `Uint32.BigSigma1Is` | src/node/sha256.cpp:51 | likewise by 6, 11 and 25 |
| `Uint32.SmallSigma0Is` | src/node/sha256.cpp:43 | likewise by 7 and 18 and the shift by 3 |
| `Uint32.SmallSigma1Is` | src/node/sha256.cpp:44 | likewise by 17 and 19 and the shift by 10 |
| `Uint32.WordBytes` | src/node/sha256.cpp:39-41 | the four bytes of a schedule word are those of the block, first byte highest |
| `Uint32.Sha256Hex` | src/node/sha256.cpp:24-66 | the text returned is the 64 hex digits of the hash with 32-bit operations |
| `Sha256Example.AbcDigest` | src/node/sha256.cpp:24-66 | the hash of the three bytes abc is the eight published words |
| `Closure.ClosureCache.OfScript` | tools/ctest_cached.py:249-267 | the worklist ends and returns exactly what all reachable scripts name; the memo always equals recomputation |
| `Closure.OneClosure` | tools/ctest_cached.py:249-267 | there is only one such answer, so visiting order does not matter |
| `Closure.GatheredIsClosure` | tools/ctest_cached.py:249-267 | an empty worklist means everything reachable has been seen |
| `Closure.TakeOver` | tools/default_audit.py:174-184 | one reader takes over what it hands on to: sound, and growing unless nothing is missing |
| `Closure.SettledIsFilled` | tools/default_audit.py:170-184 | with no pair asking for more, each reader has exactly the fields reachable from it |
| `Closure.FillerFunctions` | tools/default_audit.py:170-185 | the round-robin loop ends, on cycles too, with exactly the reachable fields, empty readers dropped |

## Left out

- Floating point: rounding, NaN, convergence rates. Non-zero pivots and diagonals are preconditions.
- Parallel synchronisation in `removeFacesDump.C` (the identity in serial) and the coupled-patch checks behind it.
- The outside loop of a merged region and its orientation: an input, any function from face lists to an optional loop.
- The feature-angle test: any predicate on two faces. Face and point zones, debug output and the dump writes.
- `Unrefinement.SetRefinement`: preconditions are the well-formed mesh, labels in range and a face list without
  duplicates, which is what `compatibleRemoves` returns; a mesh that breaks its own incidence lists is not modelled.
- Given aggregation maps in `build_levels`: only the branch that aggregates is modelled. How few levels there are is
  stated for weights that are not negative; with others a cell can stay alone, and the loop then may end early.
- The OpenFOAM and AMGX cycles of `make_steps.py`, the Krylov solvers, Chebyshev and Gauss-Seidel preconditioners.
- `AmgxCache.Cache.Update`: the library handles, vectors and solver calls of one solve; only the arrays are modelled.
  That rows are sorted and laid out in one loop is modelled as two loops one behind the other.
- `JsonText.ScanNumber`: `strtod` is modelled exactly for decimal integers up to 2^53 and is any function elsewhere,
  as is `%.10g`; that every number it prints is read as some number or as one beyond a double is a precondition where
  needed. Lone surrogates are read as the code reads them, but nothing is promised about them.
- Texts of errors and log lines: an error is its kind and its byte position.
- `Agent.AgentLoop.Tick`: the snapshot's contents, the transport log and its one-minute limit, job type and sample,
  and the sleeps of the outer loop. `runJob` is any outcome carrying the job's id.
- `AgentProtocol.AttemptsSpaced`: the attempt counter is unbounded; the source's 32-bit counter would need more than
  2^31 refusals to wrap.
- Registration, the HTTP client, job validation, identity files and the command line: single-branch facts.
- `Sha256Constants.RoundConstants`: that the list holds exactly the first 64 primes is not proved.
- `Uint32.Sha256Hex`: the 64-bit length restricts messages to fewer than 2^61 bytes, as in the standard.
- `Closure.ClosureCache.OfScript`: what one script names is any function; the text patterns behind it are not
  modelled, nor is the memo of single scripts. That all scripts lie in a finite set is a precondition.
- `Closure.FillerFunctions`: which reader sets which fields and hands its struct on to which are inputs.
- Solver fragments, dump tools, plots and rendering: wrappers over operators that are not part of this model.
