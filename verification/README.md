# A* solver: verified model

This project models the a-star-solver repository in Dafny. The repository has two parts:

- a generic A* search, `solve`, that runs against any game providing a heuristic, a successor generator and a goal test;
- a nuts-and-pegs puzzle, `NutGame`. A state is a peg capacity and a sequence of pegs. Each peg is a sequence of nut colours, bottom first.

Modules:

- `AStar` (astar.dfy) models `solve` in imperative form.
  - The open set is a sequence of `(f, counter, state)` entries. Each iteration pops the entry with the least `(f, counter)` key.
  - A goal state is returned with its path at once, before the visited check.
  - A stale entry for an already expanded state is skipped.
  - Any other state is marked visited. Each unvisited successor whose cost improves gets cost `g + 1`, parent `current` and a fresh entry.
  - The path is rebuilt by an append loop over parent links followed by a reversal.
  - State identity is structural equality, so `g` and `parent` are maps keyed by state.
  - Python's `solve` need not terminate. `Solve` therefore takes a bound on loop iterations and returns `OutOfFuel` when the bound is reached.
- `NutsAndPegs` (nuts_and_pegs.dfy) models the puzzle's goal test, heuristic and move generator.
  - Each is given as a specification function.
  - The heuristic and the move generator also have loop methods that compute them as the code does. Each method is proved equal to its function.
- `NutSearch` (nut_search.dfy) plugs the puzzle into the search.
  - It uses the move generator as written, and also a corrected one (see Findings).
  - It proves that a solution keeps the peg layout's shape and capacity. With the corrected generator, a solution also keeps the nuts.
  - It proves that the heuristic never overestimates the number of moves left to a solved state.

src/a_star_solver/main.py repeats `Game`, `solve`, `NutState` and `NutGame` line for line. main.py:4-15 is core.py:4-15, main.py:20-71 is core.py:18-69, and main.py:74-140 is nuts_and_pegs.py:6-72. Every member below therefore models both copies, and each row cites one of them.

## Model

| member | source | states |
|---|---|---|
| AStar.Solve | src/a_star_solver/core.py:18-69 | A returned path starts at the initial state, ends at a goal, and each element is a successor of the one before. It repeats no state. A goal initial state is returned alone as `[init]`. `Unsolvable` (Python's `None`) comes only from an exhausted open set, and then no walk from the initial state reaches a goal. Each state is expanded at most once, and no expanded state is a goal. Every state of a returned path before the last was expanded and is not a goal, so the search returns at its first goal. |
| AStar.ArgMin | src/a_star_solver/core.py:38 | The popped index holds an entry whose `(f, counter)` key no other entry is lexicographically below. |
| AStar.PoppedKeyUnique | src/a_star_solver/core.py:24-26 | Counters rise along the open set, so the popped entry's key is strictly below every other entry's. Pop order is lowest f first, and FIFO among equal f. |
| AStar.Reconstruct | src/a_star_solver/core.py:43-47 | The append-then-reverse loop over parent links yields exactly the parent chain from the initial state to the goal (`ChainTo`). |
| AStar.ChainTo | src/a_star_solver/core.py:43-47 | The parent chain to `s` has length `g[s] + 1`. It starts at the initial state, ends at `s`, is a walk of successor steps, and its i-th state has cost i. |
| AStar.ChainToDistinct | src/a_star_solver/core.py:43-47 | A rebuilt path visits no state twice. |
| AStar.ChainToVisited | src/a_star_solver/core.py:43-53 | When every recorded parent has been expanded, every state of a rebuilt path before its last has been expanded. |
| AStar.Expand | src/a_star_solver/core.py:56-67 | After the successor loop, with g0, parent0 and open0 the values before it, two invariants hold. `ExpandInv`: `g[s] == g[parent[s]] + 1` for every recorded non-initial state, and the parent is a predecessor. Old entries stay in place, and each new entry has the next counter and `f == g0[current] + 1 + heuristic`. `ExpandRelaxes`: every unvisited successor ends with cost at most `g0[current] + 1`, so its cost is the smaller of its old cost and `g0[current] + 1`. Only an unvisited successor whose cost was set or lowered changes cost or parent, and its parent becomes `current`; every other state keeps both. There is exactly one new entry per state whose cost was set or lowered, and none for any other state. The new entries appear in the order in which their states first occur among the successors, so the counters, the tie-break among equal f, go to siblings in generator order. |
| AStar.RelaxStep | src/a_star_solver/core.py:59-67 | Relaxing one unvisited, improved successor and pushing its entry keeps the loop invariant of the successor loop. |
| AStar.RelaxCosts | src/a_star_solver/core.py:63-65 | Setting the successor's cost to `g[current] + 1` and its parent to `current` keeps every recorded cost one more than its parent's and every parent a predecessor. |
| AStar.RelaxEntries | src/a_star_solver/core.py:66-67 | Pushing the successor's entry keeps the old entries in place, gives it the next counter and `f == g0[current] + 1 + heuristic`, and keeps every newly costed state pending. |
| AStar.PrefixStep | src/a_star_solver/core.py:59 | The successors handled after one more step are those before it plus the next one. |
| AStar.ExpandStep | src/a_star_solver/core.py:59-67 | Handling one successor, relaxed or skipped, keeps both loop invariants of the successor loop (`ExpandInv` and `ExpandRelaxes`). |
| AStar.SkipRelaxes | src/a_star_solver/core.py:59-62 | A visited or non-improved successor relaxes nothing. It already costs at most `g0[current] + 1` when unvisited, so `ExpandRelaxes` still holds. |
| AStar.RelaxRelaxes | src/a_star_solver/core.py:63-67 | Relaxing an unvisited, improved successor keeps `ExpandRelaxes`: its cost becomes `g0[current] + 1` and it gets the only new entry. |
| AStar.RelaxSetsCost | src/a_star_solver/core.py:63-65 | Relaxing t changes the cost and parent of t alone. Every unvisited successor handled so far still costs at most `g0[current] + 1`. |
| AStar.RelaxPushesOnce | src/a_star_solver/core.py:66 | After the push, every new entry belongs to a state whose cost was set or lowered, and no two new entries share a state. |
| AStar.RelaxKeepsOrder | src/a_star_solver/core.py:66-67 | The entry pushed for a relaxed successor comes after every other new entry, and its state had not been handled before. So the new entries stay ordered by their states' first occurrence among the successors. |
| AStar.FirstIndex | src/a_star_solver/core.py:56 | The first position of x in the successor sequence: the element there is x, and no earlier element is. |
| AStar.FirstIndexAppend | src/a_star_solver/core.py:56 | Handling another successor keeps the first position of every successor already handled. |
| AStar.RelaxPending | src/a_star_solver/core.py:66 | After the push, every state whose cost was set or lowered has a new entry. |
| AStar.SkipStep | src/a_star_solver/core.py:59-62 | A visited or non-improved successor changes nothing and keeps the invariant. |
| AStar.RelaxKeepsInvariants | src/a_star_solver/core.py:63-67 | Recording a cheaper cost and parent for an unvisited successor keeps the parent/cost links and the open-set bounds. |
| AStar.VisitAndExpand | src/a_star_solver/core.py:53-67 | Marking the popped state visited and expanding it, with its entry removed from the open set, keeps the search invariant `SearchInv`, with the state appended to the expansion order. The new costs, parents and entries are those `Expand` promises, `ExpandInv` and `ExpandRelaxes`, for this state and the open set without its entry: the costs are relaxed to `g[current] + 1`, and the new entries are pushed once each, in generator order. |
| AStar.PopStale | src/a_star_solver/core.py:49-51 | Dropping an entry of an already visited state keeps the search invariant `SearchInv`. |
| AStar.PopExpand | src/a_star_solver/core.py:49-67 | Marking a popped non-goal state visited and expanding it keeps `SearchInv`. This covers pending states in the open set, closure of visited states' successors, the expansion order, and parents expanded before their children. |
| AStar.PopExpandBookkeeping | src/a_star_solver/core.py:53-67 | After an expansion every discovered but unexpanded state still has an open entry, and the initial state is visited. |
| AStar.PopExpandClosed | src/a_star_solver/core.py:56-63 | After an expansion every successor of every visited state is discovered. |
| AStar.PopExpandOrder | src/a_star_solver/core.py:53-64 | After an expansion the expanded list still holds distinct non-goal states. A parent still precedes every state it is the parent of. |
| AStar.PendingRemove | src/a_star_solver/core.py:38 | Popping the entry at k loses at most that entry's state from the pending states. |
| AStar.OpenOkRemove | src/a_star_solver/core.py:38 | Popping an entry keeps every entry's f at least cost plus heuristic, and keeps counters rising. |
| AStar.PendingAppend | src/a_star_solver/core.py:66 | Pushing an entry adds exactly its state to the pending states. |
| AStar.PendingPrefix | src/a_star_solver/core.py:66 | Pushes only add pending states. |
| AStar.Exhausted | src/a_star_solver/core.py:37-69 | When the open set is empty, the expanded states are exactly the discovered ones. They include the initial state and are closed under successors. |
| AStar.ClosedSetTrapsWalks | src/a_star_solver/core.py:56-69 | A walk that starts in a set closed under successors stays in it. This is why `None` means no goal is reachable. |
| AStar.Reverse | src/a_star_solver/core.py:47 | The reversal has the same length, and element i is element `n - 1 - i` of the input. |
| NutsAndPegs.IsGoal | src/a_star_solver/games/nuts_and_pegs.py:12-22 | No contract of its own. GoalCharacterization states what it means, and HeuristicZeroIffGoal ties it to the heuristic. |
| NutsAndPegs.FirstNutsCount | src/a_star_solver/games/nuts_and_pegs.py:21 | The bottom-nut list has exactly one entry per non-empty peg. |
| NutsAndPegs.FirstNutsCountUpTo | src/a_star_solver/games/nuts_and_pegs.py:21 | The same for the first n pegs. |
| NutsAndPegs.FirstNutsAppend | src/a_star_solver/games/nuts_and_pegs.py:21 | The bottom nuts of two runs of pegs side by side are those of each run, in order. |
| NutsAndPegs.FirstNuts | src/a_star_solver/games/nuts_and_pegs.py:21 | A colour is in the list of bottom nuts iff some non-empty peg has it at the bottom. |
| NutsAndPegs.GoalCharacterization | src/a_star_solver/games/nuts_and_pegs.py:12-22 | The goal test holds iff every non-empty peg is monochrome and the bottom colours of the non-empty pegs are pairwise distinct. Empty pegs are ignored. |
| NutsAndPegs.FirstNutsNoDup | src/a_star_solver/games/nuts_and_pegs.py:21-22 | The bottom-nut list has no duplicate iff the bottoms of distinct non-empty pegs differ. |
| NutsAndPegs.ElemsCard | src/a_star_solver/games/nuts_and_pegs.py:22 | `len(set(xs)) <= len(xs)`, with equality iff xs has no duplicate. |
| NutsAndPegs.NoDupCons | src/a_star_solver/games/nuts_and_pegs.py:22 | A list headed by x has no duplicate iff x is not in the tail and the tail has none. |
| NutsAndPegs.DistinctBottomsCons | src/a_star_solver/games/nuts_and_pegs.py:21-22 | Distinct bottoms splits into the first peg against the rest, and the rest among themselves. |
| NutsAndPegs.Heuristic | src/a_star_solver/games/nuts_and_pegs.py:25-39 | The heuristic, mismatches plus repeated bottom colours, is never negative. |
| NutsAndPegs.Dups | src/a_star_solver/games/nuts_and_pegs.py:36-37 | The count of repeated bottom colours is never negative, and it is zero iff no bottom colour repeats. |
| NutsAndPegs.GetHeuristic | src/a_star_solver/games/nuts_and_pegs.py:25-39 | The accumulator loop returns the number of adjacent mismatches over all pegs plus the number of duplicate bottoms. That value is 0 exactly when the state is a goal. |
| NutsAndPegs.HeuristicZeroIffGoal | src/a_star_solver/main.py:80-107 | Heuristic 0 iff goal, in both directions. The cited lines are the copies of `is_goal` and `get_heuristic` in main.py. |
| NutsAndPegs.PegMismatchesZero | src/a_star_solver/games/nuts_and_pegs.py:32-34 | A peg prefix has no adjacent mismatch iff all of its nuts equal the bottom nut. |
| NutsAndPegs.MismatchesZero | src/a_star_solver/games/nuts_and_pegs.py:28-34 | The pegs have no mismatch iff every non-empty peg is monochrome. |
| NutsAndPegs.RunLength | src/a_star_solver/games/nuts_and_pegs.py:57-60 | The counted run is the maximal suffix of nuts equal to the top nut. The nut just below it, if any, differs. |
| NutsAndPegs.TopRun | src/a_star_solver/games/nuts_and_pegs.py:55-60 | A non-empty peg's moved run has size at least 1 and at most the peg's height. |
| NutsAndPegs.CountRun | src/a_star_solver/games/nuts_and_pegs.py:55-60 | The counting loop returns the length of the maximal run of the top colour (`TopRun`). |
| NutsAndPegs.Move | src/a_star_solver/games/nuts_and_pegs.py:69-72 | No contract of its own. MoveBetweenPegs states its effect for distinct pegs, and SelfMoveGrows for a self-move. |
| NutsAndPegs.DropsUpTo | src/a_star_solver/games/nuts_and_pegs.py:62-72 | No contract of its own. DropsUpToSpec characterises it. |
| NutsAndPegs.MovesUpTo | src/a_star_solver/games/nuts_and_pegs.py:51-72 | No contract of its own. MovesUpToSpec characterises it. |
| NutsAndPegs.Successors | src/a_star_solver/games/nuts_and_pegs.py:42-72 | No contract of its own. SuccessorsSpec characterises it, and GetSuccessors computes it. |
| NutsAndPegs.CorrectedSuccessors | src/a_star_solver/games/nuts_and_pegs.py:44-50 | No contract of its own. SuccessorsSpec characterises it as the moves whose destination is another peg. |
| NutsAndPegs.GetSuccessors | src/a_star_solver/games/nuts_and_pegs.py:42-72 | The nested loops produce exactly `Successors`, in ascending (source, destination) order: empty sources are skipped, and self-moves are included. |
| NutsAndPegs.DropsUpToSpec | src/a_star_solver/games/nuts_and_pegs.py:62-72 | A state is among the drops from source src to destinations below d iff it is a legal move of src's top run to such a destination. |
| NutsAndPegs.MovesUpToSpec | src/a_star_solver/games/nuts_and_pegs.py:51-72 | A state is among the moves from sources below n iff it is a legal move from such a source. |
| NutsAndPegs.SuccessorsSpec | src/a_star_solver/games/nuts_and_pegs.py:51-72 | t is a successor iff some source and destination give a legal move. The destination must be empty or have the moved colour on top, and must have room for the run. The corrected generator additionally excludes destination == source. |
| NutsAndPegs.MoveKeepsShape | src/a_star_solver/games/nuts_and_pegs.py:63-72 | A move keeps the capacity and the number of pegs, and keeps every peg within capacity. |
| NutsAndPegs.SuccessorKeepsShape | src/a_star_solver/games/nuts_and_pegs.py:63-72 | Every successor keeps the capacity and peg count, and keeps pegs within capacity. |
| NutsAndPegs.MoveBetweenPegs | src/a_star_solver/games/nuts_and_pegs.py:69-71 | For distinct pegs, the source becomes `src[:-size]`, the destination becomes `dst + run`, every other peg is unchanged, and the nuts are conserved. |
| NutsAndPegs.MoveConserves | src/a_star_solver/games/nuts_and_pegs.py:69-71 | Moving a run between distinct pegs keeps the multiset of nuts. |
| NutsAndPegs.NutsUpdate | src/a_star_solver/games/nuts_and_pegs.py:69-71 | Replacing one peg changes the nut multiset by exactly the difference between the old and new peg. |
| NutsAndPegs.SelfMoveGrows | src/a_star_solver/games/nuts_and_pegs.py:62-71 | For destination == source, the peg becomes `src + run`. The nut multiset gains the run, and the nut count grows by the run size. |
| NutsAndPegs.NutsGrow | src/a_star_solver/games/nuts_and_pegs.py:69-71 | Appending a run to one peg adds exactly the run's nuts. |
| NutsAndPegs.SelfMoveExample | src/a_star_solver/games/nuts_and_pegs.py:62-71 | With capacity 2 and the single peg `[7]`, the only successor is `[[7, 7]]`, one nut more. The corrected generator yields none. |
| NutsAndPegs.CorrectedSuccessorsConserve | src/a_star_solver/games/nuts_and_pegs.py:44-50 | Without self-moves, every successor holds exactly the nuts of its predecessor. |
| NutsAndPegs.HeuristicConsistent | src/a_star_solver/games/nuts_and_pegs.py:25-72 | The heuristic is consistent for both move generators: for every successor t of s, `Heuristic(s) <= Heuristic(t) + 1`. |
| NutsAndPegs.MoveHeuristic | src/a_star_solver/games/nuts_and_pegs.py:25-72 | A single legal move lowers the heuristic by at most one. |
| NutsAndPegs.MoveCounts | src/a_star_solver/games/nuts_and_pegs.py:28-71 | A move lowers the mismatch count plus the repeated-bottom count by at most one. |
| NutsAndPegs.BetweenPegsCounts | src/a_star_solver/games/nuts_and_pegs.py:28-71 | The same for a move between distinct pegs. |
| NutsAndPegs.SelfMoveCounts | src/a_star_solver/games/nuts_and_pegs.py:28-71 | A self-move keeps the mismatch count and the bottom-nut list unchanged. |
| NutsAndPegs.SelfMoveHeuristic | src/a_star_solver/games/nuts_and_pegs.py:28-71 | Stacking a run of the top colour onto its own peg changes neither the mismatches nor the bottom nuts. |
| NutsAndPegs.MoveMismatches | src/a_star_solver/games/nuts_and_pegs.py:28-71 | Moving a run between distinct pegs removes exactly one mismatch, the one under the run, if the source keeps nuts. Otherwise it removes none, and it adds none. |
| NutsAndPegs.MoveDups | src/a_star_solver/games/nuts_and_pegs.py:21-71 | Moving a run between distinct pegs removes at most one repeated bottom colour, and only if the source empties. |
| NutsAndPegs.MismatchesUpdate | src/a_star_solver/games/nuts_and_pegs.py:28-34 | Replacing one peg changes the mismatch total by the difference of the two pegs' mismatches. |
| NutsAndPegs.PegMismatchesAppend | src/a_star_solver/games/nuts_and_pegs.py:32-34 | The mismatches of `a + b` are those of a, plus those of b, plus one at the seam when the colours there differ. |
| NutsAndPegs.PegCostAppend | src/a_star_solver/games/nuts_and_pegs.py:29-34 | The same for whole pegs, empty pegs included. |
| NutsAndPegs.MonochromeCost | src/a_star_solver/games/nuts_and_pegs.py:32-34 | A peg of one colour has no mismatches. |
| NutsAndPegs.FirstNutsUpdate | src/a_star_solver/games/nuts_and_pegs.py:21 | Replacing peg i by q puts q's bottom nut, if any, between the bottom nuts of the pegs before and after i. |
| NutsAndPegs.FirstNutsSameBottom | src/a_star_solver/games/nuts_and_pegs.py:21 | A peg that stays non-empty with the same bottom nut leaves the bottom-nut list unchanged. |
| NutsAndPegs.DupsFill | src/a_star_solver/games/nuts_and_pegs.py:36-37 | Filling an empty peg never lowers the repeated-bottom count, and raises it by at most one. |
| NutSearch.NutGame | src/a_star_solver/games/nuts_and_pegs.py:10-72 | No contract of its own. The puzzle as a game, with self-moves included as the code has them. |
| NutSearch.CorrectedNutGame | src/a_star_solver/games/nuts_and_pegs.py:44-50 | No contract of its own. The puzzle with self-moves excluded. |
| NutSearch.HeuristicAdmissible | src/a_star_solver/games/nuts_and_pegs.py:25-39 | The heuristic never overestimates. From the n-th state of any sequence of moves that ends solved, at least `Heuristic(p[n])` moves remain. |
| NutSearch.WalkKeepsShape | src/a_star_solver/games/nuts_and_pegs.py:69-72 | Along any sequence of moves the capacity and peg count stay the same, and pegs within capacity stay within it. |
| NutSearch.CorrectedWalkConserves | src/a_star_solver/games/nuts_and_pegs.py:44-50 | Along any sequence of corrected moves the nuts stay the same. |
| NutSearch.SolveNuts | src/a_star_solver/main.py:20-140 | Solving the puzzle yields a sequence of moves from the initial layout to a solved one whose heuristic is 0. Capacity and peg count hold throughout, and pegs within capacity stay within it. No state of the solution before the last is solved. `Unsolvable` means no sequence of moves solves the layout. |
| NutSearch.SolveCorrected | src/a_star_solver/games/nuts_and_pegs.py:44-50 | The same with the corrected generator. In addition, every state of a solution holds exactly the initial nuts. |

## Left out

- The binary heap behind `heapq` is not modelled. The open set is a sequence. A pop takes an entry with the least `(f, counter)` key and removes it, so the heap's sifting and its layout are absent. Counters are unique, so the pop order is the same.
- Python `hash()` is modelled as structural equality of states. Two distinct states that collide in hash are not modelled.
- `get_successors` is a lazy generator. The model gives the finite sequence it yields, in the same order.
- AStar.Solve: it takes an iteration bound `fuel` and may return `OutOfFuel`. The Python loop is unbounded, and its termination for an arbitrary game is not shown.
- AStar.Solve: the optimality of the returned path is not claimed; it is out of scope. The puzzle's heuristic is proved consistent (HeuristicConsistent) and admissible (HeuristicAdmissible), but the optimality argument of A* is not part of this model.
- Game operations are total functions. Exceptions raised by a game's methods are not modelled.
- Nut conservation for every successor of the generator as written is false because of self-moves, so it is stated only for moves between distinct pegs and for the corrected generator.
- The `C` colour enum, `main()`, the hard-coded example layout and all printing in src/a_star_solver/main.py are left out. They are example data and console output. Colours are plain integers.

## Findings

| source | as written | input that shows it | evidently intended | confidence | as-written member | corrected member |
|---|---|---|---|---|---|---|
| src/a_star_solver/games/nuts_and_pegs.py:62-71 | The destination loop does not skip `dst_i == src_i`. The write to the destination then overwrites the write to the source, so the peg becomes `src_peg + run` and nuts are created. | `NutState(peg_size=2, pegs=((7,),))` has the single successor `((7, 7),)` | Moves go to another peg (docstring line 47, "pick another peg"), and every move conserves the nuts | high, not executed | NutsAndPegs.SelfMoveExample | NutsAndPegs.CorrectedSuccessorsConserve |
