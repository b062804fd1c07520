# Verified model of the JModelica equation-system compilers

JModelica turns a Modelica model into a system of differential algebraic equations and, before a
solver sees it, makes that system smaller. This project models the parts that do so, and a few other
algorithms of the repository, and proves that they mean what they are for.

- **Symbolic elimination** (`Python/src/pyjmi/symbolic_elimination.py`). A square system is matched
  by Hopcroft-Karp phases, directed along the matching, cut into strongly connected components,
  numbered into block lower triangular form, and then eliminated block by block, with tearing.
  The main result is the contract of `BltModels.BLTModel.Build`.
  Files: `Expressions`, `Linearity`, `Matchings`, `AugmentingSearch`, `BipartiteGraphs`, `Digraphs`,
  `StrongConnect`, `BlockOrder`, `TriangularOrders`, `Components`, `TornBlocks`, `Elimination`,
  `EliminationPlans`, `BlockPlans`, `EliminationChoices`, `BltModels`, `BltOptimizationProblems`.
- **BLT elimination in the CasADi interface** (`BLT.cpp`, `Block.cpp`, `Model.cpp`,
  `OptimizationProblem.cpp`). Blocks are objects with lists of shared, mutable equations; marked
  variables are back-substituted into a closed map that is applied in place. The main results are
  the contracts of `EliminateVariables` and `SubstituteAllEliminables` and the lemmas of `BltValues`.
  Files: `BltValues`, `Blocks`, `Blts`, `CasadiModels`, `OptimizationProblems`, `BlockSolving`.
- **Linear algebra**: the Schur complement solution of torn linear blocks, `linear_dae_to_ode`, and
  the unscented Kalman filter. Files: `RealSums`, `Matrices`, `LinearBlocks`, `LinearDae`,
  `SigmaPoints`, `KalmanGains`, `Ukf`.
- **Smaller cores**: conversion between row-major and column-major arrays (`ArrayLayout`),
  reference counting with owned nodes (`RefCounting`), the cache of parameter values
  (`ParameterCache`), attributes through alias chains (`AliasAttributes`) and line tracking in the
  compiler log (`LogStream`).

How it is modelled. Expressions are constants, variables, negation, sum, product, ratio and
uninterpreted operators; their value depends on an interpretation of the operators and an
environment, and every statement about meaning is for all of both. Classes that update their fields
are Dafny classes with the same fields and loops; each method is proved against a function or a
predicate on values, and the lemmas are about those. CasADi's and NumPy's `solve` is a parameter that
returns a solution of A x = b when A is nonsingular. Real arithmetic is exact. A ratio with a zero
denominator has the value zero, so the results about elimination ask for pivots that are not zero.

What a reader may look for first:

- `maximum_match` raises exactly when no perfect matching exists. The reason is always a set of
  equations with too few variables, read off the layers. Phase by phase the augmenting paths grow.
- The strong-connect emits exactly the strongly connected components, in an order no edge goes
  forward in. From this the block indices, the triangular form and the "unknown" marks follow.
- A torn block is accepted only when its causal part has a triangular order, and is refused for
  lack of one only when there is none, whichever matching was found.
- A system and its elimination are equivalent for all interpretations and environments with nonzero
  pivots; which variables remain unknown is characterised without the loops.
- In the C++ elimination the removal of eliminated variables has a precise limit, found in the
  proof: a variable stays if the unsolved equations of its own block mention it, because only
  external variables of a block are substituted there (`OwnVariableRemains`,
  `EliminatedVariablesAreGone`).

Where code and comments differ the model follows the code. `find_deps` is described as finding the
variables an expression depends on; for an expression that is itself a variable it finds none,
because it looks only at proper parts, and `create_edges` adds that case
(`Python/src/pyjmi/symbolic_elimination.py:217-227`, `995-1010`).

## Model

| member | source | states |
|---|---|---|
| Components.FindDeps | Python/src/pyjmi/symbolic_elimination.py:217-227 | A mark is set exactly for a variable that occurs in a proper part of the expression, or was marked before; a bare symbol has no dependencies. |
| Components.CreateEdges | Python/src/pyjmi/symbolic_elimination.py:995-1010 | There is an edge exactly where the equation mentions the variable, also when it is nothing but that variable. |
| Components.SplitTearing | Python/src/pyjmi/symbolic_elimination.py:263-291 | The block splits, in order, into tearing and causal parts; it fails exactly when the two tearing parts differ in number. |
| Components.TornMeans | Python/src/pyjmi/symbolic_elimination.py:263-291 | A block is torn exactly when some variable of it is a tearing variable and some is not. |
| Components.TearingTakes | Python/src/pyjmi/symbolic_elimination.py:263-291 | Each of the four parts takes, in order and at increasing positions, exactly the variables or equations that are, or are not, marked for tearing. |
| Components.TearingCounts | Python/src/pyjmi/symbolic_elimination.py:282-286 | The numbers that are compared are those of the positions marked for tearing. |
| Components.IsSolvable | Python/src/pyjmi/symbolic_elimination.py:293-310 | Solvable exactly when torn, or scalar with a variable that is neither a derivative nor ineliminable. |
| Components.IsLinear | Python/src/pyjmi/symbolic_elimination.py:312-339 | True exactly when the block is not torn and no Jacobian entry depends on any of its unknowns. |
| Linearity.Affine | Python/src/pyjmi/symbolic_elimination.py:312-339 | If no Jacobian entry of an expression depends on the unknowns, its value is its value at any other point plus the Jacobian row times the step, jointly in all unknowns. |
| Linearity.RowSolvesResidual | Python/src/pyjmi/symbolic_elimination.py:358-393 | For such a residual, row times unknowns equals minus the residual at zero if and only if the residual is zero. |
| Linearity.ZeroSlopeIsConstant | Python/src/pyjmi/symbolic_elimination.py:312-339 | An expression whose derivatives vanish identically has one value whatever the unknowns are. |
| Matchings.FlipIsMatching | Python/src/pyjmi/symbolic_elimination.py:776-794 | The symmetric difference of a matching with an augmenting path is again a matching of graph edges. |
| Matchings.FlipAllIsMatching | Python/src/pyjmi/symbolic_elimination.py:776-794 | The same for all vertex-disjoint paths of a phase at once; exactly the vertices on the paths become matched in addition. |
| Matchings.LevelsBoundPaths | Python/src/pyjmi/symbolic_elimination.py:821-846 | No augmenting path is shorter than the number of layers. |
| Matchings.NextPhaseIsLonger | Python/src/pyjmi/symbolic_elimination.py:776-794 | After a maximal set of disjoint shortest paths has been flipped, every augmenting path is strictly longer. |
| Matchings.HallViolatorExcludesPerfect | Python/src/pyjmi/symbolic_elimination.py:833-841 | Equations with fewer neighbouring variables than their number exclude every perfect matching. |
| AugmentingSearch.LayersGiveLevels | Python/src/pyjmi/symbolic_elimination.py:821-846 | The layers are the breadth-first levels of the alternating graph. |
| AugmentingSearch.StuckLayersViolateHall | Python/src/pyjmi/symbolic_elimination.py:833-841 | When a layer cannot be extended, the explored equations and variables are a Hall violator. |
| AugmentingSearch.SearchIsMaximal | Python/src/pyjmi/symbolic_elimination.py:889-929 | When the search ends, every augmenting path of the shortest length meets a path that was found. |
| AugmentingSearch.LayersHoldPath | Python/src/pyjmi/symbolic_elimination.py:850-852 | Every unmatched variable of the last layer ends an augmenting path whose length is the number of layers: the layers lead to shortest paths. |
| BipartiteGraphs.BipartiteGraph.constructor | Python/src/pyjmi/symbolic_elimination.py:570-587 | A graph starts with an empty, hence valid, matching. |
| BipartiteGraphs.BipartiteGraph.BuildLayers | Python/src/pyjmi/symbolic_elimination.py:821-846 | Returns the layers up to the first with an unmatched variable, with all their arcs, or raises and there is a Hall violator; the error names the unmatched equations exactly when none of them has an edge. |
| BipartiteGraphs.BipartiteGraph.FindPaths | Python/src/pyjmi/symbolic_elimination.py:889-929 | The paths found are vertex-disjoint augmenting paths of the same, shortest, length, and every other such path meets one of them. |
| BipartiteGraphs.BipartiteGraph.FindShortestAugPaths | Python/src/pyjmi/symbolic_elimination.py:804-929 | A phase: no paths only when every equation is matched, otherwise a maximal set of disjoint shortest augmenting paths; raises only with a Hall violator. |
| BipartiteGraphs.BipartiteGraph.Toggle | Python/src/pyjmi/symbolic_elimination.py:784-794 | One edge of a path changes sides; the list of matches keeps no repetitions. |
| BipartiteGraphs.BipartiteGraph.MaximumMatch | Python/src/pyjmi/symbolic_elimination.py:776-794 | Terminates with path lengths that grow strictly from phase to phase; returns with a perfect matching of graph edges, and raises exactly when none exists, with a Hall violator as the reason; the error lists the unmatched equations exactly when only matched equations have edges. |
| StrongConnect.Digraph.StrongConnect | Python/src/pyjmi/symbolic_elimination.py:970-993 | Terminates and keeps the search invariant: closed parts are strongly connected and come in an order no arc goes forward in, and every stacked vertex reaches an active one. |
| StrongConnect.Digraph.ConnectAll | Python/src/pyjmi/symbolic_elimination.py:952-956 | The parts emitted are exactly the strongly connected components of the digraph, in an order in which arcs lead only to the same or an earlier part. |
| Digraphs.OrderedStrongPartsAreComponents | Python/src/pyjmi/symbolic_elimination.py:938-993 | Strongly connected disjoint parts in such an order are the components: two vertices share a part if and only if they reach each other. |
| BlockOrder.ComponentsAreTriangular | Python/src/pyjmi/symbolic_elimination.py:938-968 | The variable of every edge lies in the block of its equation or an earlier one. |
| BlockOrder.BlocksHoldMatches | Python/src/pyjmi/symbolic_elimination.py:938-968 | The blocks together hold every matched pair once. |
| BipartiteGraphs.BipartiteGraph.Scc | Python/src/pyjmi/symbolic_elimination.py:938-968 | Blocks are the strongly connected components of the matched digraph, block lower triangular, and both local and global indices number the equations and the variables consecutively along them. |
| BlockOrder.UnknownIsBelowDiagonal | Python/src/pyjmi/symbolic_elimination.py:1197-1201 | The comparison of the two indices tells exactly whether the edge lies strictly below the block diagonal. |
| BltModels.MarkUnknown | Python/src/pyjmi/symbolic_elimination.py:1191-1201 | An edge is marked "unknown" exactly when its variable lies in a strictly earlier block than its equation. |
| TriangularOrders.OrderIsTheMatching | Python/src/pyjmi/symbolic_elimination.py:544-552 | Where a triangular order exists, the matching it uses is the only perfect one. |
| TriangularOrders.OrderMakesScalar | Python/src/pyjmi/symbolic_elimination.py:544-552 | Where a triangular order exists, every component is a single equation. |
| TriangularOrders.ScalarMakesOrder | Python/src/pyjmi/symbolic_elimination.py:544-552 | Where every component is a single equation, the block order is a triangular order. |
| TornBlocks.Classify | Python/src/pyjmi/symbolic_elimination.py:231-261 | The properties found for a block are its tearing split, tornness, solvability and linearity; fails exactly on unequal tearing parts. |
| TornBlocks.ConnectComponents | Python/src/pyjmi/symbolic_elimination.py:938-968 | From a perfectly matched graph come square, disjoint blocks that cover the system and mention no later variable; they are the strongly connected components of the matched digraph; there are as many blocks as equations exactly when the graph has a triangular order. |
| TornBlocks.SameBlock | Python/src/pyjmi/symbolic_elimination.py:938-993 | Two matched pairs are in one block if and only if each reaches the other along the matched digraph. |
| TornBlocks.TearNonlinEq | Python/src/pyjmi/symbolic_elimination.py:484-566 | Succeeds exactly when the causal equations have an order in which each one is linear in its own variable, and then returns scalar linear blocks in such an order; each of the three errors comes exactly for its reason: structurally singular, no triangular order, or one with an equation that is not linear. |
| TornBlocks.OnlyOneOrder | Python/src/pyjmi/symbolic_elimination.py:544-566 | Whether such an order exists can be read off any perfect matching, since the triangular order is the only one. |
| Elimination.SolutionIsExact | Python/src/pyjmi/symbolic_elimination.py:1300-1342 | With the earlier solutions in force and a nonzero pivot, a variable equals its stored solution if and only if its equation is zero. |
| Elimination.EliminationIsEquivalent | Python/src/pyjmi/symbolic_elimination.py:1203-1484 | Over any number of steps with nonzero pivots: all original equations are zero if and only if all residuals are zero and every solved variable equals its solved expression. |
| Elimination.ResultsAreClean | Python/src/pyjmi/symbolic_elimination.py:1203-1484 | No residual and no solved expression mentions an eliminated variable, after every prefix of the steps. |
| Elimination.AsManyResidualsAsUnknowns | Python/src/pyjmi/symbolic_elimination.py:1203-1484 | There are as many residuals as unsolved variables. |
| Elimination.ResidualsKeepValues | Python/src/pyjmi/symbolic_elimination.py:1203-1484 | Residual by residual, in order: each has the value of the equation that was kept, for all interpretations and environments in which the solved variables have that of their solutions. |
| Elimination.EliminatedOrKept | Python/src/pyjmi/symbolic_elimination.py:1203-1484 | Every variable handled is either eliminated or kept, never both. |
| Elimination.SolvedOnce | Python/src/pyjmi/symbolic_elimination.py:1203-1484 | No variable is entered twice in the list of solved variables. |
| Elimination.SolutionsKeepValue | Python/src/pyjmi/symbolic_elimination.py:1678-1729 | Substituting solutions leaves the value of any expression unchanged where the solutions hold. |
| Elimination.SolutionsRemove | Python/src/pyjmi/symbolic_elimination.py:1678-1729 | After the substitution the expression mentions no eliminated variable. |
| EliminationPlans.PlanStep | Python/src/pyjmi/symbolic_elimination.py:1203-1484 | A further step keeps the order condition if its equations mention no variable that is still to come. |
| BlockPlans.PlanBlock | Python/src/pyjmi/symbolic_elimination.py:1226-1480 | Treating one block of a lower triangular order keeps the plan, also inside a torn block. |
| BlockPlans.TornNext | Python/src/pyjmi/symbolic_elimination.py:1348-1440 | Treating one causal block of a torn block keeps the plan, with the tearing variables still open. |
| BlockPlans.TornEnd | Python/src/pyjmi/symbolic_elimination.py:1441-1466 | Keeping the tearing residuals closes the torn block: its variables and equations are all handled. |
| EliminationChoices.TornChosen | Python/src/pyjmi/symbolic_elimination.py:1344-1440 | Through a torn block exactly the allowed causal variables are eliminated. |
| EliminationChoices.WhoGoes | Python/src/pyjmi/symbolic_elimination.py:1226-1480 | A variable is to go exactly when it is no derivative, not ineliminable, sparsity allows it, and its block either has tearing and other variables and it is one of the others, or consists of it alone with equations whose derivative in it does not mention it. |
| EliminationChoices.UnsolvedAreTheRest | Python/src/pyjmi/symbolic_elimination.py:1352-1480 | A variable remains unknown exactly when it is not both allowed to go and either alone in a linear block or a causal variable of a torn one. |
| BltModels.BLTModel.SolveScalar | Python/src/pyjmi/symbolic_elimination.py:1300-1342 | Appends solution, solved variable and list entry of one step of the specification; all lists stay aligned. |
| BltModels.BLTModel.KeepEquations | Python/src/pyjmi/symbolic_elimination.py:1467-1480 | Appends, in order, residuals with the values of the equations wherever the earlier solutions hold, and the variables as unknowns; what was there stays, and all lists stay aligned. |
| BltModels.BLTModel.EliminateCausal | Python/src/pyjmi/symbolic_elimination.py:1344-1440 | After the causal part of a torn block the steps are still well ordered and nothing fixed was eliminated; exactly the allowed variables were. |
| BltModels.BLTModel.EliminateTorn | Python/src/pyjmi/symbolic_elimination.py:1344-1466 | A torn block keeps, block by block of its causal part, the equations of the variables that may not go, and then its tearing equations; all else is eliminated. |
| BltModels.BLTModel.CreateResiduals | Python/src/pyjmi/symbolic_elimination.py:1203-1484 | Succeeds exactly when the causal part of every torn block can be ordered and solved, and an error belongs to the first block where not; then handles every variable and equation once, in an order that permits back substitution, eliminates exactly the variables that are to go, and keeps the rest block by block, and within a torn block causal part first. |
| BltModels.BLTModel.ComputeBlt | Python/src/pyjmi/symbolic_elimination.py:1181-1201 | Fails as singular exactly when no perfect pairing of equations and variables exists, and for unequal tearing parts exactly when some block has them; the blocks are the strongly connected components in lower triangular order, and the marks are the edges below the diagonal blocks. |
| BltModels.BLTModel.Build | Python/src/pyjmi/symbolic_elimination.py:1026-1051 | End to end: succeeds exactly on a square system that is not structurally singular, whose blocks have equal tearing parts and whose torn blocks can be ordered and solved, and every error comes for its reason; blocks are strongly connected components and marks are right; where pivots are nonzero, the system holds if and only if the result does; the residuals are the kept equations, value by value and in block order, and the unsolved variables are theirs in the same order; derivatives and ineliminable variables are among them, and they are exactly the variables that are not to go. |
| BltOptimizationProblems.BLTOptimizationProblem.SubstituteObjectiveAndConstraint | Python/src/pyjmi/symbolic_elimination.py:1678-1729 | Objective integrand and constraint sides keep their values wherever the solutions hold, and mention no eliminated variable. |
| LinearBlocks.SchurIsTheSolution | Python/src/pyjmi/symbolic_elimination.py:1279-1295 | The computed pair is the unique solution of the two-by-two block system whenever A and the Schur complement are nonsingular. |
| LinearBlocks.LinearSystemIsSolved | Python/src/pyjmi/symbolic_elimination.py:358-397 | The residuals of a linear block are all zero if and only if its unknowns are what solving A x = b gives. |
| LinearBlocks.TornBlockIsSolved | Python/src/pyjmi/symbolic_elimination.py:399-482 | All equations of a torn linear block are zero if and only if causal and tearing unknowns equal the computed ones. |
| BlockSolving.SolvedBlockMeansSame | ModelicaCasADiInterface/src/Block.cpp:216-258 | A linear block with nonsingular Jacobian says after its solution what it said before, save that a solution which it had already is no longer compared with the new one. |
| BlockSolving.SolvingKeepsMeaning | ModelicaCasADiInterface/src/BLT.cpp:172-181 | The same for all linear blocks of a system at once. |
| BlockSolving.SolvingKeepsForm | ModelicaCasADiInterface/src/BLT.cpp:172-181 | The system stays block lower triangular when its linear blocks are solved. |
| Blts.BLT.SolveBlocksWithLinearSystems | ModelicaCasADiInterface/src/BLT.cpp:172-181 | Exactly the linear blocks with several unknowns that are not solved get their solution and lose their unsolved equations; the other blocks keep theirs, and no linear block that is neither simple nor solvable is left with more than one unsolved variable. |
| CasadiModels.SoundAfterSolving | ModelicaCasADiInterface/src/Model.hpp:287-295 | A sound model stays sound and keeps its solutions when its linear systems are solved. |
| BltValues.SubstitutesAreClosed | ModelicaCasADiInterface/src/BLT.cpp:85-101 | From a list sorted by block, no expression of the map mentions a listed variable. |
| BltValues.SubstitutesOnlyEarlier | ModelicaCasADiInterface/src/BLT.cpp:85-101 | The map keeps the block order: its expressions mention only variables of strictly earlier blocks or known ones. |
| BltValues.EliminationKeepsMeaning | ModelicaCasADiInterface/src/BLT.cpp:153-158 | The system holds if and only if the reduced one holds and each eliminated variable equals its mapped expression. |
| BltValues.SubstitutionKeepsMeaning | ModelicaCasADiInterface/src/Model.cpp:555-573 | Substitution that keeps the equations z = f(z) leaves the set of solutions exactly unchanged. |
| BltValues.SubstitutionKeepsForm | ModelicaCasADiInterface/src/Block.cpp:261-321 | Both operations keep the block lower triangular form. |
| BltValues.SubstitutesReplace | ModelicaCasADiInterface/src/Block.cpp:261-321 | After substitution and after elimination with the map of a sorted list, the solutions, all equations and the unsolved equations of every block have the values they had wherever the external variables equal their mapped expressions, and mention none of these variables any more; exactly the solutions of eliminated variables are gone. |
| BltValues.NothingReplacedRemains | ModelicaCasADiInterface/src/Block.cpp:302-308 | With a closed map no expression of a block, solved equations included, mentions an external variable of the map. |
| BltValues.EliminatedVariablesAreGone | ModelicaCasADiInterface/src/BLT.cpp:153-158 | An eliminated variable that other blocks list as external is mentioned afterwards if and only if the unsolved equations of its own block mentioned it. |
| BltValues.OwnVariableRemains | ModelicaCasADiInterface/src/BLT.cpp:153-158 | A concrete block in which an eliminated variable is still mentioned afterwards. |
| BltValues.ExternalsStayKnown | ModelicaCasADiInterface/src/Block.cpp:261-321 | Substitution brings no listed variable into a block that does not list it as external. |
| Blocks.Block.AddVariable | ModelicaCasADiInterface/src/Block.hpp:287-291 | A new variable gets the next index; a known one keeps its own. |
| Blocks.Block.AddSolutionToVariable | ModelicaCasADiInterface/src/Block.hpp:295-303 | The first solution of a variable stays; later ones are ignored. |
| Blocks.Block.RemoveSolutionOfVariable | ModelicaCasADiInterface/src/Block.hpp:305-312 | The solution is gone, nothing else changed, and the result tells whether there was one. |
| Blocks.Block.MoveAllEquationsToUnsolvable | ModelicaCasADiInterface/src/Block.cpp:149-160 | The unsolved equations are the equations, as the same objects. |
| Blocks.Block.SolveLinearSystem | ModelicaCasADiInterface/src/Block.cpp:216-258 | Only a linear block that is neither solvable nor simple changes: each variable without a solution gets the entry at its index and no equation stays unsolved. |
| Blocks.Block.Substitute | ModelicaCasADiInterface/src/Block.cpp:261-321 | Each solution, equation and unsolved equation has the value it had wherever the external variables equal their mapped expressions, and mentions these no longer unless an expression of the map does; objects that the two lists share are substituted once. |
| Blocks.Block.GetEquationsForModel | ModelicaCasADiInterface/src/Block.cpp:335-352 | The equations of a block are one per solution and the unsolved ones: as many, saying the same, and mentioning the same variables. |
| Blts.BLT.GetSubstitues | ModelicaCasADiInterface/src/BLT.cpp:85-101 | The nested loops compute the map of the specification and change no block. |
| Blts.BLT.Substitute | ModelicaCasADiInterface/src/BLT.cpp:136-141 | The same for every block, which stay apart. |
| Blts.BLT.RemoveSolutionOfVariable | ModelicaCasADiInterface/src/BLT.cpp:125-134 | Stopping at the first block that has a solution removes every solution of the variable. |
| Blts.BLT.EliminateVariables | ModelicaCasADiInterface/src/BLT.cpp:153-158 | The same for every block, and exactly the solutions of the mapped variables are gone. |
| Blts.BLT.GetBlockIDWithSolutionOf | ModelicaCasADiInterface/src/BLT.cpp:160-170 | The first block with a solution of the variable, or -1 when there is none. |
| Blts.BLT.GetDaeEquations | ModelicaCasADiInterface/src/BLT.cpp:103-113 | The list is, block by block, one equation v = solution for each solution of the block and then its unsolved equation objects; it holds exactly when the system does and mentions the same variables. |
| CasadiModels.SortKeepsElements | ModelicaCasADiInterface/src/Model.cpp:600-629 | Sorting the marked pairs by block loses and repeats none. |
| CasadiModels.SoundAfterSubstitution | ModelicaCasADiInterface/src/Model.cpp:555-573 | After substituteAllEliminables the model is still sound and has exactly the solutions it had. |
| CasadiModels.SoundAfterElimination | ModelicaCasADiInterface/src/Model.cpp:600-629 | After eliminateVariables the original system still holds if and only if the present one and the stored solutions do. |
| CasadiModels.SubstitutionKeepsCount | ModelicaCasADiInterface/src/Model.cpp:555-573 | Substitution changes no equation count. |
| CasadiModels.Model.MarkVariablesForElimination | ModelicaCasADiInterface/src/Model.cpp:631-648 | Exactly the eliminable variables of the argument that some block solves are appended. |
| CasadiModels.Model.SubstituteAllEliminables | ModelicaCasADiInterface/src/Model.cpp:555-573 | Same solutions, same equation count, the substituted variables are exactly the solved eliminable ones, and no block mentions one that is external to it. |
| CasadiModels.Model.EliminateVariables | ModelicaCasADiInterface/src/Model.cpp:600-629 | The first call eliminates exactly the marked variables, from all equations of the blocks where they are external, and solved ones too; every later call only counts. |
| OptimizationProblems.OptimizationProblem.SubstituteExpressions | ModelicaCasADiInterface/src/OptimizationProblem.cpp:163-236 | Flattening, substituting and writing back by counter puts every expression back where it came from, for any number of constraints. |
| OptimizationProblems.OptimizationProblem.SubstituteAllEliminables | ModelicaCasADiInterface/src/OptimizationProblem.cpp:163-236 | Times, objective and constraint sides keep their values where the system holds and mention no substituted variable; the equations keep their solutions. |
| OptimizationProblems.OptimizationProblem.EliminateVariables | ModelicaCasADiInterface/src/OptimizationProblem.cpp:277-376 | The same for elimination, once; later calls change neither problem nor model. |
| LinearDae.OdeIsEquivalent | Python/src/pyjmi/linearization.py:84-100 | With [E, -F] nonsingular, derivatives and algebraics satisfy the linear DAE if and only if the returned A, B, g and H, M, q give them, for all states and inputs. |
| SigmaPoints.WeightsSumToOne | Python/src/pyjmi/ukf.py:147-154 | The mean weights add up to one. |
| SigmaPoints.ImageSpreads | Python/src/pyjmi/ukf.py:206-232 | An affine map takes symmetric sigma points to points symmetric about the image of the centre. |
| SigmaPoints.MeanIsExact | Python/src/pyjmi/ukf.py:395-409 | The weighted mean of such points is their centre. |
| SigmaPoints.CovarianceIsExact | Python/src/pyjmi/ukf.py:395-426 | The weighted covariance of two such clouds is G P Hᵀ, given only S Sᵀ = c P. |
| Ukf.CalcWeights | Python/src/pyjmi/ukf.py:134-154 | For i > 0 both weights are 1 / (2 alpha^2 (L + kappa)); the two vectors differ only in their first entry, the mean weights sum to one, and weight times spreading is one half. |
| Ukf.CalcSigma | Python/src/pyjmi/ukf.py:190-232 | The matrix filled column by column is centre, centre plus and centre minus the columns of S. |
| Ukf.GainSolves | Python/src/pyjmi/ukf.py:420-426 | The gain times the measurement covariance is the cross covariance. |
| Ukf.UKF.Predict | Python/src/pyjmi/ukf.py:308-427 | For affine dynamics and measurement: xp and yp are the exact images, the covariances are F P Fᵀ + Pv, F P (CF)ᵀ and CF P (CF)ᵀ + Pn, and K Pyy = Pxy; the stored P is the covariance of the error of the corrected estimate over every ensemble with these covariances, and no gain makes an error variance smaller. |
| Ukf.UKF.Update | Python/src/pyjmi/ukf.py:267-283 | The estimate becomes the one whose errors KalmanGains.ErrorCovariance and GainIsBest are about. |
| KalmanGains.ErrorCovariance | Python/src/pyjmi/ukf.py:267-283 | Over any weighted ensemble of states and measurements the error of xp + G (y - yp) has covariance Pxx - K Pyy Kᵀ + (G - K) Pyy (G - K)ᵀ, K being the gain of the filter and G any gain. |
| KalmanGains.GainIsBest | Python/src/pyjmi/ukf.py:416-427 | Hence the P that the filter stores is the covariance of its error, and no gain has errors of smaller variance. |
| ArrayLayout.DigitLoop | RuntimeLibrary/src/jmi/jmi_array_none.c:67-89 | The inner loop computes, digit by digit, the position in the other layout, and it stays within the array. |
| ArrayLayout.SourceOfIndex | RuntimeLibrary/src/jmi/jmi_array_none.c:67-89 | The column-major position of an index is mapped to its row-major position. |
| ArrayLayout.SourceIsPermutation | RuntimeLibrary/src/jmi/jmi_array_none.c:67-89 | The map of positions is a bijection; the loop in the other direction is its inverse. |
| ArrayLayout.Transpose | RuntimeLibrary/src/jmi/jmi_array_none.c:67-89 | Every position of the destination is written from its source position, cast; what lies beyond is left alone. |
| ArrayLayout.MovesEveryElement | RuntimeLibrary/src/jmi/jmi_array_none.c:101-104 | In the to_fortran form dest at the column-major position is src at the row-major position, for every index of every shape. |
| ArrayLayout.RoundTrip | RuntimeLibrary/src/jmi/jmi_array_none.c:101-104 | From after to, and to after from, restore the array for every shape. |
| RefCounting.LiveUntilLastRef | ModelicaCasADiInterface/src/RefCountedNode.hpp:45-69 | In every sound store a node that is not owned is alive exactly while it is new or some Ref points to it or to a node it owns. |
| RefCounting.Store.NewNode | ModelicaCasADiInterface/src/RefCountedNode.hpp:45-69 | A new node has no references and is alive. |
| RefCounting.Store.NewOwnedNode | ModelicaCasADiInterface/src/OwnedNode.hpp:41-50 | An owned node counts at its owner. |
| RefCounting.Store.CreateRef | ModelicaCasADiInterface/src/Ref.hpp:30-44 | Counts equal live Refs again after a Ref is constructed, alone or as a field of a node. |
| RefCounting.Store.CopyRef | ModelicaCasADiInterface/src/Ref.hpp:30-44 | The same for a copy. |
| RefCounting.Store.DecRefNode | ModelicaCasADiInterface/src/RefCountedNode.hpp:45-69 | Giving back one reference restores the counts; the node is deleted exactly when it was the last, and the cascade destroys only fields of deleted nodes. |
| RefCounting.Store.DestroyRef | ModelicaCasADiInterface/src/Ref.hpp:30-44 | Destroying a Ref keeps every count exact, cascades included, and removes no Ref but it and fields of deleted nodes. |
| RefCounting.Store.SetNode | ModelicaCasADiInterface/src/Ref.hpp:67-73 | The assignment is defined if and only if the Ref has that value already, or new node and holder survive the release: a set of live nodes, each fresh or kept by another Ref that is no field or a field within the set, contains both. Counts are exact afterwards in every case. |
| RefCounting.SurvivalDecides | ModelicaCasADiInterface/src/Ref.hpp:67-73 | Survival, said about the state before, decides what is alive after the release and its cascade. |
| RefCounting.RootSurvives | ModelicaCasADiInterface/src/Ref.hpp:67-73 | Assigning to a Ref that is no field is defined when another such Ref keeps the new node or it is fresh. |
| RefCounting.FieldSurvives | ModelicaCasADiInterface/src/Ref.hpp:67-73 | So is assigning to a field of a node that is kept from outside, when the new node is fresh or another field of that node keeps it. |
| LogStream.LinesConcat | Python/src/pymodelica/compiler_logging.py:106-129 | Splitting a concatenation into lines joins the last line of one text with the first of the other. |
| LogStream.LinesJoin | Python/src/pymodelica/compiler_logging.py:131-138 | The lines of a text hold no newline and give the text back when joined by newlines. |
| LogStream.JoinLinesBack | Python/src/pymodelica/compiler_logging.py:131-138 | Splitting undoes joining, so these two properties fix the lines of every text. |
| LogStream.NextPosition | Python/src/pymodelica/compiler_logging.py:106-129 | One more chunk moves line number and last two lines to those of the longer text, however the text was cut. |
| LogStream.KeepLastStream.Read | Python/src/pymodelica/compiler_logging.py:106-129 | After any reads the fields describe the concatenation of all chunks but the last; nothing of the stream is lost. |
| LogStream.KeepLastStream.GenErrorMsg | Python/src/pymodelica/compiler_logging.py:131-192 | With L in the last chunk, what is shown are lines L-1, L and L+1 of the whole stream as far as they exist, with dots for what is before and after, joined by the separator, and with newlines they can be read off; the character is the one at the column of line L; the output has ended exactly when L is the last line and the column is at or past its end, and at the end of another line taking the character fails; the dump is everything from that chunk on. |
| AliasAttributes.Variable.GetAttribute | ModelicaCasADiInterface/src/Variable.cpp:79-110 | Through a chain of any length the result is the attribute of the root, with bounds swapped and sign changed once per negation. |
| AliasAttributes.ReadsAttribute | ModelicaCasADiInterface/src/Variable.cpp:79-123 | Through any chain start, nominal value and bindings are those of the root with the sign turned under an odd number of negations, minimum and maximum are also exchanged then, and any other attribute is the root's own. |
| AliasAttributes.FlippedIsOdd | ModelicaCasADiInterface/src/Variable.cpp:79-110 | The sign is turned exactly when the number of negations is odd. |
| AliasAttributes.NegationsOfChain | ModelicaCasADiInterface/src/Variable.cpp:79-110 | The negations that count are those of the aliases along the chain, one by one. |
| AliasAttributes.Variable.SetAttribute | ModelicaCasADiInterface/src/Variable.cpp:126-152 | Only the root changes, at the translated key, to the translated value (StoresVia says which); it fails exactly when a binding is already set and it or the new one is not constant, and then changes no attribute. |
| AliasAttributes.StoresVia | ModelicaCasADiInterface/src/Variable.cpp:126-132 | What is set through a chain is stored under the other bound after an odd number of negations and under the same key otherwise, with the sign turned for start, bounds, nominal value and bindings, and as it is for any other attribute. |
| AliasAttributes.RoundTrip | ModelicaCasADiInterface/src/Variable.cpp:103-132 | Translating key and value down any chain of negations and back gives the value set. |
| AliasAttributes.SetThenGet | ModelicaCasADiInterface/src/Variable.cpp:79-152 | What was set is what is read, through any chain. |
| AliasAttributes.BoundsOfAlias | ModelicaCasADiInterface/src/Variable.cpp:96-123 | A value lies within the bounds of an alias if and only if its sign-adjusted value lies within those of the root. |
| AliasAttributes.RunsKeepBinding | ModelicaCasADiInterface/src/Variable.cpp:134-152 | Over any run of sets, through any aliases of the root, a constant binding never becomes non-constant and a non-constant one never changes. |
| ParameterCache.ScratchSolves | ModelicaCasADiInterface/src/Model.cpp:391-415 | In the values computed from scratch every bound parameter has the value of its binding under these very values. |
| ParameterCache.ScratchValues | ModelicaCasADiInterface/src/Model.cpp:391-438 | A variable has a value from scratch exactly when it is a parameter or constant with a constant binding, its own or its root's, or with none but a start value, or a bound parameter; and it is that value. |
| ParameterCache.ScratchFits | ModelicaCasADiInterface/src/Model.cpp:391-438 | The values from scratch, said of bindings and start values: exactly the parameters and constants whose root has no binding, a constant one, or that are dependent parameters themselves have one; without a binding it is the start value, with a constant binding that constant, of the root and with the sign of the alias. |
| ParameterCache.AliasHasRootsValue | ModelicaCasADiInterface/src/Model.cpp:417-438 | An alias has the value of its root, with its sign. |
| ParameterCache.FailsExactlyWhenUnvalued | ModelicaCasADiInterface/src/Model.cpp:391-438 | Computing the values fails exactly when a parameter or constant has neither binding nor start value, or a dependent parameter mentions a variable that has no value or gets one only later in the list. |
| ParameterCache.Model.AddVariable | ModelicaCasADiInterface/src/Model.cpp:282-290 | Adding a variable invalidates the cache and keeps the rest. |
| ParameterCache.Model.Set | ModelicaCasADiInterface/src/Model.cpp:54-63 | Changes the binding of the root of the alias, with its sign, and invalidates the cache; each refusal comes exactly for its reason: unknown variable, not a parameter, or a binding of the root that is not constant, where the cache is invalidated all the same. |
| ParameterCache.Model.CalculateValues | ModelicaCasADiInterface/src/Model.cpp:391-415 | Whenever the cache is not dirty it agrees with recomputation from scratch, and the values fit bindings and start values; fails exactly when a value is missing, and leaves the cache dirty then. |
| ParameterCache.Model.Get | ModelicaCasADiInterface/src/Model.cpp:32-44 | Each outcome comes exactly for its reason: no such variable, not a parameter or constant, a value is missing, or the root is no bound parameter (so for every constant); otherwise the value is that of the root from scratch, which solves its binding, with the sign of the alias. |

## Left out

Symbolic elimination

- Options other than the defaults: `closed_form` (partly not implemented in the source), `solve_blocks`, and the code path of `solve_torn_linear_blocks`, of which only the linear algebra is here (`LinearBlocks.TornBlockIsSolved`).
- The density heuristic `_sparsity_preserving` and its dependency tables: its answer is an arbitrary predicate on variables, since elimination must be right whatever it says.
- Components.IsLinear: does not mark the edges of a nonlinear block as not linear; only the drawing reads these marks, and the block indices that tearing rewrites.
- Statistics (`n_solvable`, `n_unsolvable`), drawing, printing, result recomputation, options, reading the model through the JVM and CasADi: I/O and user interface. CasADi's `substitute`, `dependsOn`, `jacobian` and `solve` are modelled by what they compute; its Jacobian is `Expressions.Diff`, with zeros and ones simplified.
- Equations and variables are values in lists; the objects of the source are their positions. `explicit_unsolved_algebraics` is a filtered copy of the unknowns and is not kept.
- BltModels.BLTModel.Build: states equivalence where pivots are not zero; with a zero pivot the source divides by zero as well.
- BipartiteGraphs.BipartiteGraph.constructor: the sparse incidence matrix, which only the density heuristic reads, is left out, and the error for unequal numbers is raised by `BltModels.BLTModel.Build`.

BLT elimination

- BltValues.EliminatedVariablesAreGone: asks that other blocks which mention the variable list it as external, which the transfer from the compiler provides; for a block that does not, substitution skips the variable.
- Blocks.Block.SolveLinearSystem: the solution of the linear system is a parameter, since it is computed by CasADi; what it has to be is said in `BlockSolving.SolvesBlock`.
- Blocks.Block.Substitute: does not recompute the Jacobian and the flag for linearity, which `solveLinearSystem` reads later; the flag keeps its value here.
- The eliminable flags that `Model::solveLinearSystemsInBLT` recomputes after solving.
- The single-variable `getSubstitues`, which looks only at direct dependencies; `FlatEquations` (no BLT); empty `MX` entries; error texts.
- Flags on variables other than eliminable and eliminated; z holds the variables of the model in the order of the source and does not change. `OptimizationProblem` holds a model where the source inherits from it.
- Well-formedness of the blocks handed over by the compiler (`BltValues.WellFormed`) is a precondition; the transfer that produces them is not part of this model.

Linear algebra

- Rounding, conditioning and the numerical solver; matrices are functions of their indices, except for the arrays that `ukf.py` fills column by column.
- The simulation in `_predict` is a given affine map without failures, and scaling by nominal values is left out; the Cholesky factor is any S with S Sᵀ = c P.
- The `linearize_*` functions, which only fill dictionaries.

Smaller cores

- ArrayLayout.Transpose: integers are unbounded, because every intermediate index stays below the number of elements; source and destination are different arrays, as in all its callers.
- RefCounting.Store.SetNode: where the release frees the new node or the node that holds the Ref, the source uses freed memory; the model stops there, with exact counts, and returns false.
- Threads, and the use of a raw pointer that nothing keeps alive.
- ParameterCache.Model.Get: alias chains are collapsed to the root with one sign, and `start` values are fixed when a variable is added, since a later change of `start` does not invalidate the cache in the source either.
- AliasAttributes.Variable.GetAttribute: a double negation of a value that is not constant is left as it is written; values agree, expressions may differ. `hasAttributeSet` on a negated alias does not swap minimum and maximum in the source, and neither does it here.
- LogStream.KeepLastStream.GenErrorMsg: the message text is reduced to the three context lines, the column and the character there; a column at the end of a line is an index error in the source and is reported as one here. XML parsing is not part of this model.

Not modelled at all, because they would only add easy members: the FMI wrappers and templates, `printPyomoModel`, the Dymola writers, compiler drivers and start-up scripts.
