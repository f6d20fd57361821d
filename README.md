# constraint_satisfaction — a verified Dafny model of the solving core

The C++ library models a constraint satisfaction problem (CSP) as a pool
of `Variable` objects, each with an ordered domain of values and an
optional assignment index, plus constraints over those variables. The
solvers change the variables in place:

- the plain backtracking solver, which finds one solution or all of them;
- the AC4 arc-consistency filter, which removes values that have no
  support;
- the tree-structured solver, which sorts the variables topologically,
  prunes backwards and assigns forwards.

This project models these files:

- `csp/variable.h`
- `csp/backtracking.h`
- `csp/arc_consistency_4.h`
- `csp/tree_csp_solver.h`

It proves what each operation does to the variables.

Modules, following the program's structure:

- `Wrappers` holds `Option`, `Result` and `Outcome`.
- `Errors` holds `CspError`, one case per exception class of the engine.
- `Domain` holds the standard-library algorithms the engine relies on:
  `std::lower_bound`, `std::find`, `std::includes` and `std::sort`.
  - `lower_bound`, `find` and `includes` follow the library's algorithm.
  - `sort` is an insertion sort. It yields the same sorted permutation as
    `std::sort`, not the library's introsort.
  - Each is proved against the property the engine needs.
- `Variables` holds `class Variable`, whose fields the methods update,
  and `VarState`, a value snapshot of one variable.
- `Problem` holds the constraint problem.
  - The problem is an **arena**: a sequence of distinct `Variable`
    objects. A variable is named by its position.
  - A constraint is an identity, a scope of positions and a predicate on
    the values assigned so far, in scope order.
  - Consistency, satisfaction, neighbours, unassigned variables and the
    consistent domain are defined on the arena's snapshot `StatesOf(vars)`.
  - `constraint_problem.h` and `constraint.h` are not part of this model.
    Their behaviour is taken from the tests `cspTests/constraint_tests.cpp`
    and `cspTests/constraint_problem_tests.cpp`.
- `Backtracking` holds `__backtrackingSolver` and the all-solutions
  search. Both are proved against `HasSolution` and
  `IsSolutionExtension`, which specify the consistent completions of the
  entry state.
- `ArcConsistency` holds AC4: the initialisation of the support counters
  and the propagation queue.
  - If AC4 answers, the answer is exactly whether every domain is still
    non-empty.
  - Domains only lose entries.
  - AC4 never removes a value of a solution σ that is consistent pair by
    pair, provided nothing is assigned and no domain repeats an entry.
- `TreeCsp` holds the tree solver.
  - The graph orientation, the in-degree count and Kahn's algorithm
    yield a topological order.
  - The backward pass, the forward pass and the solver are given twice:
    as written, and corrected (see "## Findings").

Behaviour that is modelled as the code has it:

- The domain of an unassigned variable is read live during the first
  loop of AC4.
  - After a removal, the loop index still moves on.
  - The entry that slides into the removed entry's place is therefore not
    probed in that pass.
- The backward pass of the tree solver prunes each variable of the order
  against the previous variable of the order, not against its parent in
  the constraint tree.
- Iteration over an `unordered_set` or `unordered_map` is a
  nondeterministic pick (`:|`). Every proved property holds for every
  iteration order.
- With the comparator present (always, because `init_compare` returns
  `std::less`):
  - `getAssignmentIdxOfValue` uses the binary search;
  - `setSubsetDomain` uses `std::includes`.

  The unsorted paths are modelled too, behind the `ordered` flag.
- The binary search of `assignByValue` finds every entry only in a
  sorted domain.
  - The constructor sorts the domain.
  - `setSubsetDomain` keeps it sorted, unless its caller wrongly flags an
    unsorted argument as sorted.
  - `setDomain` installs any vector as it is given.

  The tree solver's contracts therefore take sortedness as a premise,
  `TreeCsp.SortedIfOrdered`: every variable that uses the comparator has
  a sorted domain. They state what follows under it. The solver as
  written fails exactly on an unsupported value, and the corrected solver
  does not fail.

## Model

| member | source | states |
|---|---|---|
| Variables.Variable.constructor | csp/variable.h:30-34 | a new variable is unassigned and uses the comparator; its domain is strictly increasing and holds exactly the initial set |
| Variables.Variable.GetValue | csp/variable.h:67-74 | an unassigned variable reports the unassigned-value error; a well-formed assigned one yields the domain entry at its index, and only that |
| Variables.Variable.IsAssigned | csp/variable.h:65 | the variable holds an index: a well-formed variable is assigned exactly when it has a value, and getValue refuses exactly an unassigned one |
| Variables.Variable.Unassign | csp/variable.h:78 | clears the index and keeps the domain |
| Variables.Variable.AssignByIdx | csp/variable.h:80-92 | an out-of-range index fails first, then an assigned variable fails with over-assignment; otherwise the index is set; the domain never changes |
| Variables.Variable.GetAssignmentIdxOfValue | csp/variable.h:111-121 | a returned index holds the value; on a sorted domain it succeeds exactly when the value occurs; the unsorted scan returns the first occurrence; failure is the uncontained-value error |
| Variables.Variable.AssignByValue | csp/variable.h:94-109 | over-assignment is checked before the lookup; success assigns an index holding the value, exactly when the value occurs in a sorted domain; failure leaves the variable unassigned |
| Variables.Variable.SetDomain | csp/variable.h:141-151 | the domain is replaced unless the uniqueness check finds a repeated entry; the index is never touched |
| Variables.Variable.SetSubsetDomain | csp/variable.h:153-186 | an assigned variable fails with no change; sorted path: accepted (and the argument sorted when unflagged) exactly when it is an ordered subsequence of the domain; unsorted path: accepted exactly when it is shorter and contained; acceptance unassigns |
| Variables.Variable.RemoveFromDomainByIdx | csp/variable.h:188-196 | an assigned variable fails with the domain-alteration error and no change; otherwise exactly entry i is erased |
| Variables.Variable.RemoveFromDomainByValue | csp/variable.h:198-207 | an assigned variable fails with no change; otherwise the first occurrence of the value is erased and nothing else |
| Variables.TwinVariables | csp/variable.h:247-250 | two variables built from one set have equal state and are still different variables (identity comparison) |
| Domain.LowerBound | csp/variable.h:338-350 | the binary search stays in bounds, and on a sorted domain splits it into the entries below the value and those at least the value |
| Domain.FirstIndexOf | csp/variable.h:352-373 | the first index holding the value, or the length when it does not occur |
| Domain.Includes | csp/variable.h:169 | on sorted inputs, the one-pass walk answers whether the argument is an ordered subsequence of the domain |
| Domain.SubseqElements | csp/variable.h:169-171 | every entry of an accepted subsequence is an entry of the domain |
| Domain.SortSeq | csp/variable.h:332 | the result is sorted and a permutation of the input (an insertion sort in place of the library's algorithm) |
| Domain.SubseqSorted | csp/tree_csp_solver.h:121-133 | an ordered subsequence of a sorted domain is sorted, so pruning keeps a sorted domain sorted |
| Domain.SetToSeq | csp/variable.h:328 | listing an unordered set gives each member exactly once |
| Domain.StrictlySortedUnique | csp/variable.h:326-336 | a set has exactly one strictly increasing listing, so the built domain is fixed by the initial set |
| Domain.DistinctIffNoCollapse | csp/variable.h:147-148 | the set-size test succeeds exactly when the entries are pairwise distinct |
| Domain.AllContained | csp/variable.h:384-390 | the scan succeeds exactly when every entry of the argument occurs in the domain |
| Problem.NewConstraint | cspTests/constraint_tests.cpp:145-160 | the front-to-back repeat scan rejects the scope with the duplicate-variable error exactly when it lists some variable twice; otherwise the constraint keeps the given identity, scope and predicate |
| Problem.DuplicateVariableRejected | cspTests/constraint_tests.cpp:145-160 | a scope that lists variable 0 a second time is rejected with the duplicate-variable error, and the scope without the repeat is accepted |
| Problem.NewProblem | cspTests/constraint_problem_tests.cpp:406-421 | building a problem fails exactly when a constraint occurs twice, and the error names a constraint that occurs twice |
| Problem.SatisfiedIffConsistentAndAssigned | cspTests/constraint_tests.cpp:95-104 | a constraint is satisfied exactly when its scope is fully assigned and it is consistent |
| Problem.ConsistencyFrame | cspTests/constraint_tests.cpp:84-93 | consistency depends only on the values of the scope's own variables |
| Problem.UnassignedConsistency | cspTests/constraint_problem_tests.cpp:157-163 | with nothing assigned, the problem is consistent exactly when every predicate accepts the empty value list |
| Problem.UnassignedVariablesComplete | cspTests/constraint_problem_tests.cpp:222-233 | the unassigned-variable list holds exactly the unassigned variables, each once, in arena order |
| Problem.CompletelyAssignedIffNoneUnassigned | csp/backtracking.h:74-76 | the problem is completely assigned exactly when the unassigned list is empty |
| Problem.LastUnassigned | csp/backtracking.h:25-26 | an incomplete problem has a last unassigned variable to branch on |
| Problem.NeighborsShareConstraint | cspTests/constraint_problem_tests.cpp:235-249 | gathering the other scope members of every constraint over x yields exactly the variables other than x that share a constraint with x |
| Problem.NeighborsSymmetric | cspTests/constraint_problem_tests.cpp:235-249 | y is a neighbour of x exactly when x is a neighbour of y, and no variable is its own neighbour |
| Problem.AustraliaNeighbors | cspTests/constraint_problem_tests.cpp:235-249 | on the tests' map of Australia, the neighbours of sa are exactly nt, q, nsw, v and wa, and those of v exactly sa and nsw |
| Problem.UnassignedNeighbors | csp/tree_csp_solver.h:19 | filtering the neighbours leaves exactly the unassigned variables that share a constraint with x |
| Problem.AustraliaUnassignedNeighbors | cspTests/constraint_problem_tests.cpp:263-273 | on the map of Australia with wa and q assigned, the unassigned neighbours of sa are exactly nt, nsw and v |
| Problem.ConsistentDomainMembers | cspTests/constraint_problem_tests.cpp:339-352 | a value is in the consistent domain exactly when it is in the domain and keeps every constraint over x consistent |
| Problem.ConsistentDomainSorted | cspTests/constraint_problem_tests.cpp:339-352 | filtering keeps domain order: a sorted domain gives a sorted consistent domain |
| Problem.ConsistentDomainKeepsConsistency | csp/tree_csp_solver.h:143-149 | assigning a value of the consistent domain keeps a consistent problem consistent |
| Problem.AssignInArena | csp/backtracking.h:30 | assigning one arena variable changes only its index, keeps the arena well formed and shortens the unassigned list |
| Problem.UnassignInArena | csp/backtracking.h:41 | unassigning one arena variable changes only its index |
| Problem.RemoveInArena | csp/arc_consistency_4.h:111 | removal from an assigned arena variable is refused with no change; otherwise exactly one variable loses exactly entry i |
| Backtracking.ReplayConcat | csp/backtracking.h:31-45 | replaying two appended histories is replaying one after the other |
| Backtracking.SolutionIsCompleteAndConsistent | csp/backtracking.h:13-17 | a completion is a complete, consistent, well-formed assignment |
| Backtracking.CompleteSolution | csp/backtracking.h:13-23 | a complete arena has a solution exactly when it is consistent, and the solution is its own indices |
| Backtracking.CompleteSolutionUnique | csp/backtracking.h:62-67 | a complete arena's only possible completion is itself |
| Backtracking.BranchSolutions | csp/backtracking.h:28-30 | the completions after fixing index j of x are the completions that pick j for x |
| Backtracking.OpenAfterConcat | csp/backtracking.h:31-45 | running the open-assignment stack over two appended histories is running it over one and then the other |
| Backtracking.OpenAfterShift | csp/backtracking.h:31-45 | a well-bracketed history runs the same on top of any outer stack of open assignments |
| Backtracking.FoundBranchBrackets | csp/backtracking.h:30-34 | assigning x before a successful branch's history leaves x and the branch's own assignments open |
| Backtracking.FailedBranchBrackets | csp/backtracking.h:30-45 | assign x, a failed branch's history, unassign x: everything opened is closed again |
| Backtracking.Backtrack | csp/backtracking.h:10-49 | a solution is found exactly when the entry state has a consistent completion; success leaves such a completion, and no completion gives the branching variable (the last unassigned one) a lower index; failure restores every variable; domains never change; the written history replays to the final values and is bracketed: each unassign closes the latest open assign, failure closes all, success leaves one open assign per unassigned variable |
| Backtracking.TryIndex | csp/backtracking.h:28-46 | one loop turn: success leaves a completion that gives x index i; failure restores the state and rules out every completion choosing i; the written history replays to the final values and is bracketed |
| Backtracking.Solve | csp/backtracking.h:51-57 | the public solver: solves whenever a completion exists, with the lowest index for the branching variable, otherwise leaves the problem as it was; the history is empty unless asked for, replays to the final values and is bracketed |
| Backtracking.RecordIfConsistent | csp/backtracking.h:62-67 | a complete arena adds to the solutions exactly its consistent completions |
| Backtracking.BranchAccumulates | csp/backtracking.h:80-85 | the solutions of branch i, joined to the earlier branches, are the completions choosing an index up to i |
| Backtracking.FindAll | csp/backtracking.h:59-86 | adds exactly the consistent completions of the entry state and restores every variable |
| Backtracking.FindAllSolutions | csp/backtracking.h:88-94 | the result is exactly the set of consistent completions |
| ArcConsistency.Bump | csp/arc_consistency_4.h:93-94 | the support counter of one triplet rises by k, and no other counter changes |
| ArcConsistency.AddSupporterAt | csp/arc_consistency_4.h:95-97 | recording adds the first pair as supported by exactly the pairs of consistent second values |
| ArcConsistency.SupportValuesMembers | csp/arc_consistency_4.h:84-103 | the counted supports are exactly the second variable's domain entries for which the constraint is consistent |
| ArcConsistency.RemovedFacts | csp/arc_consistency_4.h:111 | erasing an entry drops one value from the multiset, keeps the other values, and keeps a duplicate-free domain duplicate-free without that value |
| ArcConsistency.BinarySolutionPairwiseConsistent | csp/arc_consistency_4.h:91 | a complete assignment that is consistent with every constraint is consistent on every constraint's first two variables |
| ArcConsistency.ConsistentAt | csp/arc_consistency_4.h:87-102 | the temporary assignment of the second variable answers the constraint's verdict for that entry and restores the state |
| ArcConsistency.CountSupports | csp/arc_consistency_4.h:84-103 | the inner loop raises the counter by the number of supports and records each support; the arena is restored |
| ArcConsistency.Probe | csp/arc_consistency_4.h:72-108 | for entry i of the first variable, counts and records exactly its supports towards the second variable, restoring the arena |
| ArcConsistency.InitStep | csp/arc_consistency_4.h:72-113 | an entry with no support is removed and queued, and removing one from an assigned variable is the domain-alteration error |
| ArcConsistency.SoundInitially | csp/arc_consistency_4.h:124-127 | with nothing counted or queued, soundness for σ is σ's values being in their domains |
| ArcConsistency.TrackedRemove | csp/arc_consistency_4.h:111 | removing an entry keeps every assignment, only shrinks domains and lowers the total domain size by one |
| ArcConsistency.InitStepSound | csp/arc_consistency_4.h:109-113 | σ's value of the first variable is supported, so it is never removed and soundness is kept |
| ArcConsistency.InitPass | csp/arc_consistency_4.h:68-114 | one pass over a constraint only shrinks domains, queues exactly one pair per removed entry, fails only on an assigned variable, and keeps σ sound |
| ArcConsistency.InitConstraint | csp/arc_consistency_4.h:58-117 | a one-variable constraint is skipped; the two swapped passes queue exactly one pair per removed entry and keep σ sound |
| ArcConsistency.InitializeAc4 | csp/arc_consistency_4.h:51-119 | the whole initialisation only shrinks domains, leaves a queue as long as the number of entries it removed, fails only when something is assigned, and keeps σ's values when nothing is assigned and no domain repeats an entry |
| ArcConsistency.FindIndex | csp/arc_consistency_4.h:140 | std::find: the first position of the value, the end exactly when it does not occur |
| ArcConsistency.Retract | csp/arc_consistency_4.h:135-150 | a supporter still in its domain loses one support and, at zero, is removed and queued |
| ArcConsistency.PopSound | csp/arc_consistency_4.h:131-132 | popping the queue front keeps soundness, with all of its supporters still to visit |
| ArcConsistency.RetractKeeps | csp/arc_consistency_4.h:145-150 | one decrement keeps σ sound, and a value it removes is not σ's |
| ArcConsistency.VisitSupporter | csp/arc_consistency_4.h:134-151 | one supporter visit only shrinks domains; the queue grows by exactly what the domains lose |
| ArcConsistency.ProcessPair | csp/arc_consistency_4.h:131-152 | visiting every supporter of the popped pair keeps σ sound and the queue-plus-size measure balanced |
| ArcConsistency.Propagate | csp/arc_consistency_4.h:129-153 | the propagation loop only shrinks domains; it pops the queue once per pair queued before it started plus once per entry it removes; an error is the domain-alteration error and needs some variable to be assigned; when σ was sound for the counters, supporters and queue it starts from, σ's values all stay |
| ArcConsistency.Ac4 | csp/arc_consistency_4.h:121-156 | the answer is exactly whether every domain is non-empty; domains only shrink; the queue is popped exactly once per removed entry; an error is the domain-alteration error and needs some variable to be assigned; on an unassigned problem whose domains repeat no entry, σ's values all stay and the answer is true |
| TreeCsp.AdjacentSymmetric | csp/tree_csp_solver.h:19-22 | being unassigned neighbours is symmetric, so each pair is met from both sides |
| TreeCsp.AddEdgesFrom | csp/tree_csp_solver.h:19-27 | after variable x the graph holds exactly the earlier-to-later edges out of the variables up to x |
| TreeCsp.InitDirectedGraph | csp/tree_csp_solver.h:13-31 | the graph holds exactly one edge per neighbouring unassigned pair, from the earlier to the later variable |
| TreeCsp.CountEdgesFrom | csp/tree_csp_solver.h:40-44 | counting the edges out of x keeps every count equal to the number of counted predecessors |
| TreeCsp.InitInDegree | csp/tree_csp_solver.h:34-48 | each count is the number of edges into the variable; as written, only variables on an edge get an entry |
| TreeCsp.ZeroInDegreeVars | csp/tree_csp_solver.h:51-64 | exactly the entries with count zero |
| TreeCsp.Kahn | csp/tree_csp_solver.h:76-90 | the output lists in-degree entries without repetition, each after all its predecessors, and on an acyclic graph all of them |
| TreeCsp.SortPremises | csp/tree_csp_solver.h:69-71 | the graph has no cycle and the in-degree keys are the unassigned variables with a neighbour (all of them when corrected) |
| TreeCsp.LengthCheck | csp/tree_csp_solver.h:93-96 | as written, the length check passes exactly when no unassigned variable lacks an unassigned neighbour |
| TreeCsp.TopoOrdered | csp/tree_csp_solver.h:76-90 | Kahn's output orders every edge between listed variables |
| TreeCsp.OrientAndCount | csp/tree_csp_solver.h:69-71 | the oriented graph and its in-degree map meet the premises of Kahn's loop |
| TreeCsp.SortWith | csp/tree_csp_solver.h:67-101 | a topological order of unassigned variables, empty exactly when nothing is unassigned or (as written) some variable is isolated, otherwise listing all of them |
| TreeCsp.KahnTopologicalSort | csp/tree_csp_solver.h:67-101 | the sort as written: empty exactly when nothing is unassigned or an unassigned variable has no unassigned neighbour |
| TreeCsp.CorrectedTopologicalSort | csp/tree_csp_solver.h:67-101 | the corrected sort lists every unassigned variable in topological order |
| TreeCsp.IsolatedVariableCounterexample | csp/tree_csp_solver.h:37-45 | one unconstrained variable is isolated, so the sort as written returns nothing, yet the problem is solvable |
| TreeCsp.AssignValueInArena | csp/tree_csp_solver.h:123 | assignByValue in the arena: on success only x's index changes and x holds v; it succeeds whenever v occurs and x's domain is sorted or x does not use the comparator |
| TreeCsp.KeepMembers | csp/tree_csp_solver.h:121-133 | pruning keeps exactly the values that leave the previous variable a consistent value |
| TreeCsp.KeepSubseq | csp/tree_csp_solver.h:121-133 | what pruning keeps is an ordered subsequence of the domain |
| TreeCsp.TryValue | csp/tree_csp_solver.h:123-132 | one step as written: it passes, with nothing changed, only for a value that leaves the previous variable a consistent value; with x's domain sorted it passes exactly for such a value and otherwise fails with the domain-alteration error; a refused removal leaves x assigned |
| TreeCsp.CheckValues | csp/tree_csp_solver.h:121-133 | the inner loop as written passes, changing nothing, only when every value supports the previous variable; with x's domain sorted it passes exactly then and otherwise fails with the domain-alteration error; a refused removal leaves x assigned |
| TreeCsp.SingletonPairSupport | csp/tree_csp_solver.h:123-124 | in the counterexample problem, variable 1 := d leaves variable 0 a consistent value exactly when d is not 1 |
| TreeCsp.UnsupportedValueCounterexample | csp/tree_csp_solver.h:123-126 | a solvable two-variable problem with a value that supports nothing, so the as-written step must remove from an assigned variable |
| TreeCsp.KeepSorted | csp/tree_csp_solver.h:121-133 | what pruning keeps of a sorted domain is sorted |
| TreeCsp.PruneLayoutSorted | csp/tree_csp_solver.h:121-133 | during the corrected inner loop a sorted domain stays sorted: the kept values lie below the values not yet examined |
| TreeCsp.ShrunkSorted | csp/tree_csp_solver.h:117-139 | domains that shrank to subsequences keep every comparator-using variable sorted |
| TreeCsp.PruneValues | csp/tree_csp_solver.h:121-133 | the corrected inner loop leaves x unassigned with exactly its supporting values, in order; with x's domain sorted it does not fail |
| TreeCsp.CheckedUntilSupported | csp/tree_csp_solver.h:117-139 | a backward pass that completed or stopped at an empty domain met no unsupported value |
| TreeCsp.DifferentPairSupported | csp/tree_csp_solver.h:117-139 | two variables with the domain [1, 2] whose values must differ: along [0, 1] every value of variable 1 supports variable 0, so with sorted domains the pass as written does not fail |
| TreeCsp.DifferentPairValue | csp/tree_csp_solver.h:123-124 | in that problem, variable 1 := d leaves variable 0 the other value |
| TreeCsp.BackwardPass | csp/tree_csp_solver.h:117-139 | the pass as written changes nothing; it completes or stops at an empty domain only when every value it met was supported; with sorted domains it fails exactly when it meets, below checked variables, a value that does not support the previous variable, and the error is then the domain-alteration error |
| TreeCsp.PruneAt | csp/tree_csp_solver.h:119-138 | one corrected step prunes the next variable of the order and reports whether its domain became empty |
| TreeCsp.BackwardPassCorrected | csp/tree_csp_solver.h:117-139 | the corrected pass prunes each variable of the order (from the last down) to its supporting values, stopping at the first empty one; with sorted domains it does not fail |
| TreeCsp.PrunedStatesSupported | csp/tree_csp_solver.h:117-139 | each pruned variable keeps exactly the values of its original domain that support its predecessor, as a subsequence |
| TreeCsp.PrunedStatesValues | csp/tree_csp_solver.h:117-139 | pruning changes no value and no assignment index |
| TreeCsp.ForwardConsistent | csp/tree_csp_solver.h:141-154 | assigning from consistent domains keeps a consistent problem consistent |
| TreeCsp.ForwardAssigns | csp/tree_csp_solver.h:141-154 | the visited variables get values and the others keep theirs; the history records exactly those values |
| TreeCsp.ForwardSolves | csp/tree_csp_solver.h:141-154 | a pass that visits every unassigned variable of a consistent problem leaves it completely and consistently assigned |
| TreeCsp.ForwardStep | csp/tree_csp_solver.h:143-153 | one visit stops at an empty consistent domain with nothing changed, or assigns the last consistent value and records it; with sorted domains it does not fail |
| TreeCsp.ForwardPass | csp/tree_csp_solver.h:141-154 | the values are those of the specified forward assignment up to the stopping variable; domains do not change; the history has one event per assignment; with sorted domains it does not fail |
| TreeCsp.EmptyOutcome | csp/tree_csp_solver.h:112-115 | returning an empty history without touching the problem is a valid outcome |
| TreeCsp.ForwardOutcome | csp/tree_csp_solver.h:141-156 | a forward pass over all unassigned variables delivers the solver's outcome |
| TreeCsp.ForwardKeepsFirst | csp/tree_csp_solver.h:141-153 | once the first variable of the order has its value, the later steps of the forward pass do not change it |
| TreeCsp.ForwardRunAssignsFirst | csp/tree_csp_solver.h:141-153 | when the first variable of the order has a consistent value, the forward run assigns it, so the values after the run differ from those before |
| TreeCsp.PassesAsWritten | csp/tree_csp_solver.h:117-156 | the passes as written change no domain; either the backward pass stopped at an empty domain with nothing changed and an empty history, or it went through and the values are exactly the forward assignment along the order up to the end or the first variable without a consistent value, with one history entry per assignment; with sorted domains they fail exactly when the backward pass meets an unsupported value, with the domain-alteration error |
| TreeCsp.TreeCspSolver | csp/tree_csp_solver.h:106-157 | as written: the order is a topological order of unassigned variables, empty (with no change and an empty history) exactly when nothing is unassigned or a variable is isolated, and otherwise listing them all; then the run is the passes' run along that order; no domain changes; consistency is kept; a full history means solved; with sorted domains it fails exactly when the order is non-empty and the backward pass meets an unsupported value, with the domain-alteration error |
| TreeCsp.PassesCorrected | csp/tree_csp_solver.h:117-156 | the corrected backward pass prunes the order's variables to their supporting values (state P); it stopped at an empty pruned domain and the problem is left as P with an empty history, or the values are exactly the forward assignment from P along the order, with one history entry per assignment; each domain ends as a subsequence of its original; with sorted domains they do not fail |
| TreeCsp.CorrectedTreeCspSolver | csp/tree_csp_solver.h:106-157 | corrected: the order is a topological order of every unassigned variable, and the run is the corrected passes' run along it; fails only on a value lookup, so with sorted domains it does not fail; each domain ends as a subsequence of its original; consistency is kept; a full history means solved |

## Left out

- `assignWithRandomlySelectedValue` (`csp/variable.h:123-134`) is left out because it draws from a random device.
- The stream operators, `toString`, the exception message texts and the hash functions are left out. They produce text or hashes, not solver state.
- The copy and move constructors and assignments, and the `constructFrom*` factories, are left out. Every variable of the model is built by the constructor from a set.
- The generic value type `T` is modelled as `int` with its usual order.
- `size_t` counters and indices are unbounded. No wrap-around is modelled.
- `constraint_problem.h` and `constraint.h` are not part of this model. Constraints, consistency, neighbours and the consistent domain are defined from their tests.
  - The iteration order of `getUnassignedVariables` is taken to be arena order.
  - The variable-selection heuristics and `unassignAllVariables` are not modelled.
- Variables.Variable.SetSubsetDomain: the C++ sorts the caller's vector in place through a `const_cast`. The model sorts a copy and does not show the caller's vector changing.
- Variables.Variable.GetValue: reading a stale index is undefined behaviour in the C++. The model returns `StaleIndex` instead. An index goes stale only after `setDomain`, which does not clear it.
- Variables.Variable.GetAssignmentIdxOfValue: the sorted lookup dereferences the end iterator when the value is above every entry. The model reports `UncontainedValue` there.
- Variables.Variable.RemoveFromDomainByIdx: the C++ erase does not check the index. The model requires it in range for an unassigned variable.
- Variables.Variable.RemoveFromDomainByValue: erasing the end iterator is undefined in the C++. The model requires the value to occur in the domain of an unassigned variable.
- ArcConsistency.Ac4: the dangling reference to `queue.front()` (`csp/arc_consistency_4.h:131-132`) is modelled as a copy of the front pair.
- ArcConsistency.Ac4: constraints with an empty scope are excluded, because `variables[0]` on an empty scope is undefined in the C++.
- ArcConsistency.Ac4: the soundness ensures (σ's values all stay and the answer is true) is stated for a completely unassigned problem only. With assigned variables the probes read their assigned values instead, and the model proves only the other clauses: domains only shrink, and the answer is exactly whether every domain is non-empty.
- ArcConsistency.Ac4: soundness is also stated only for domains without repeated entries (the predicate `ArcConsistency.Keeps` demands both σ's value and `Distinct`). Such domains arise only through `setDomain` without its uniqueness check (`csp/variable.h:141-151`). The algorithm is then not sound. Take x = [a], y = [b, b, c] and z = [e], where the constraints [y, z] and [y, z] accept only (c, e) and [x, y] accepts (a, b) and (a, c). The first constraint removes one b, and the `++i` step (`csp/arc_consistency_4.h:71`, `csp/arc_consistency_4.h:109-112`) skips the copy that slides into its place. The third constraint removes that copy and queues (y, b) a second time. The two pops (`csp/arc_consistency_4.h:144-149`) bring the counter of (x, a, y) from 2 to 0, so a is removed although (a, c, e) is a solution. No lemma exhibits this run, because the algorithm is modelled only as methods.
- ArcConsistency.Ac4: an error is stated only as the domain-alteration error with some variable assigned. `ArcConsistency.InitStep` and `ArcConsistency.Retract` state its exact cause, a support counter reaching zero for an entry of an assigned variable (`csp/arc_consistency_4.h:109-111`, `csp/arc_consistency_4.h:146-148`). `ArcConsistency.InitPass` keeps only that the variable is assigned, and the methods above it keep only that some variable is.
- Backtracking: solutions are sets of index vectors (one domain index per variable). The C++ `Assignment` maps each variable to its index.
- TreeCsp.TreeCspSolver: the C++ stops with an exception on the backward pass's domain alteration. The model returns `Err(DomainAlteration)` from the solver.
- TreeCsp.TreeCspSolver: on an error the solver's contract does not say what state the problem is left in. In the C++ the variable being checked is still assigned (line 123) when the removal at line 126 throws. `TreeCsp.TryValue` and `TreeCsp.CheckValues` state that this variable is left assigned on `DomainAlteration`, but the solver's ensures do not carry it further.

## Findings

| source | as written | input that shows it | evidently intended | confidence | as-written member | corrected member |
|---|---|---|---|---|---|---|
| csp/tree_csp_solver.h:37-45 | `__init_inDegree` creates an entry for a variable only when it has an outgoing edge or an incoming one. An unassigned variable with no unassigned neighbour gets no entry, never enters the topological order, and the length check at line 93 then returns an empty order, so the solver gives up. | one unassigned variable with the domain [1] and no constraints | every unassigned variable gets an in-degree entry (zero when it has no predecessor), so an isolated variable is sorted and assigned like any other | high (not executed) | TreeCsp.KahnTopologicalSort, TreeCsp.IsolatedVariableCounterexample | TreeCsp.CorrectedTopologicalSort |
| csp/tree_csp_solver.h:123-126 | The backward pass calls `removeFromDomainByValue` on the current variable while it is still assigned by line 123. `removeFromDomainByValue` throws `domain_alteration_error` for an assigned variable (`csp/variable.h:200-203`), so any value without support makes the solver throw instead of pruning. | variable 0 with the domain [1], variable 1 with the domain [1, 2], and one constraint that their values differ; the order is [0, 1], and the value 1 of variable 1 leaves variable 0 nothing | unassign the variable before removing the value, so that the pass prunes the domain to its supporting values | high (not executed) | TreeCsp.CheckValues, TreeCsp.BackwardPass, TreeCsp.TreeCspSolver, TreeCsp.UnsupportedValueCounterexample | TreeCsp.PruneValues, TreeCsp.BackwardPassCorrected, TreeCsp.PrunedStatesSupported, TreeCsp.CorrectedTreeCspSolver |
