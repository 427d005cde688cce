# A verified model of the NFA graph store and evaluator

This project models the header-only library `nfa.hpp` in Dafny. Its core is the `NFA` class.

- **Registration.** `connect(src, dst)` registers nodes by name. Each new name gets the next sequential id.
- **Adjacency.** Edges are kept twice: in a square forward boolean matrix and in its transpose. Every `connect` grows and pads both matrices.
- **Path table.** After every edge the whole table is rebuilt. For each node it holds every path to an accepting node that repeats no node and avoids the node itself, found by a backtracking search that never re-enters its own ancestor chain. With self-loops skipped, the default, it holds no other paths. The paths are sorted shortest first.
- **Evaluation.** `test(src)` and `test(src, dst)` walk the stored paths in order. They evaluate each node's test callback, possibly inverted by the `reverse` setting, and run its action. A path stops at its first unmet node. The first path that succeeds ends the walk.
- **Priority wiring.** `combination_by_weight` sorts a set of nodes heaviest first. It then connects every ordered pair that the tier rule admits. A node's tier is its weight truncated toward zero.

Modules:

- `Node`: the node value, the polarity of `test` and `run`, and truncation of the weight.
- `Matrix`: adjacency matrices, and how `connect` and `_update` grow and pad them.
- `Paths`: `search_from_source` as a function whose termination is proved, `find_status_in_way`, `sort_ways`, and the path filter of `find_ways`.
- `Eval`: the meaning of the two evaluation loops, as functions.
- `Store`: what one `connect` does to the store, as a value.
- `Automaton`: class `Nfa`. Its fields are the name table, the node table, both matrices and the path table. Its methods are proved against the functions above.
- `Wiring`: `combination_by_weight` and `_combination_by_weight`, as methods on an `Nfa`.

Modelling choices:

- **Test callbacks.** A node's test callback is not part of the model. Its outcome comes from the parameter `raw: nat -> bool`, which gives the outcome for each node id. That fixes one outcome per id for the whole call. The source calls the callback afresh on every evaluation (nfa.hpp:52). A callback whose result changes between calls therefore diverges from the model when a node is evaluated twice in one call. That happens in three ways. The node lies on two candidate ways. Or `src` is evaluated again on its kept self-loop way `[src]`. Or, with `skip_self` false, a kept inner self-loop puts a way `[…, Y, Y]` in the table (`Paths.KeptSelfLoopRepeats`), and walking it evaluates `Y` twice on the same way. The flag `hasTest` says whether the node has a callback at all.
- **Run callbacks.** Only the value handed to a node's action is modelled (`StatusTestRun` returns it as `signal`). The action's return value and its exceptions are dropped, as the source drops them.
- **Which nodes are evaluated.** The evaluation methods also return `trace`: the ids whose tests were evaluated, in order. This makes the short-circuiting observable.
- **Failed rebuilds.** `update_all_ways` throws when a registered node is named `""`. This happens because `find_status_name` uses `""` to mean "not found". The model returns this as `ok == false`. The path table is then left built only below that node's id. The wiring methods stop at the first such failure, as the exception would.

## Model

The functions that define the model state nothing about their results in their own contracts; `Wiring.Wire` promises only that it keeps the store invariants. Their properties are stated by the lemmas in the rows below:
- `Node.Test` and `Node.RunSignal`: `Node.ReverseInvertsMeet` and `Node.RunSignalIgnoresReverse`.
- `Paths.Search` and `Paths.Step`: `Paths.SearchMembers`, `Paths.StepMembers`, `Paths.SearchShape`, `Paths.SearchComplete` and `Paths.SearchBelow`.
- `Paths.SortWays`: `Paths.SortWaysSpec`.
- `Paths.WaysThrough`: `Paths.WaysThroughMembers` and `Paths.WaysThroughAppend`.
- `Eval.WalkFrom`, `Eval.TryFrom` and `Eval.Evaluate`: `Eval.WalkFromSpec`, `Eval.WalkWhole`, `Eval.TryFromSpec` and `Eval.EvaluateSpec`.
- `Store.Connected`: `Store.ConnectedOk`, `Store.ConnectedNames`, `Store.ConnectedIds`, `Store.ConnectedEdges`, `Store.ConnectedIdempotent` and `Store.ConnectTwice`.
- `Wiring.Qualifies`: `Wiring.QualifiesShape`.
- `Wiring.Targets` and `Wiring.Pairs`: `Wiring.TargetsMembers` and `Wiring.PairsMembers`.
- `Wiring.Wire`: `Wiring.WireAppend`, `Wiring.WireEdges`, `Wiring.WireKeepsName` and `Wiring.WireNewName`.

| member | source | states |
|---|---|---|
| Node.ReverseInvertsMeet | nfa.hpp:50-57 | with `reverse` set a node is met exactly when it would not be without it; without it a node is met iff the callback's outcome equals the target |
| Node.RunSignalIgnoresReverse | nfa.hpp:59-64 | the inversion in `run` undoes the one in `test`: the action always receives "outcome == target", whatever `reverse` is |
| Node.Trunc | nfa.hpp:478-480 | `(int)w` truncates toward zero: for w ≥ 0 it is the largest integer ≤ w, for w < 0 the smallest integer ≥ w |
| Matrix.PadRows | nfa.hpp:417-423 | `_update` keeps the row count and turns every row into that row followed by `false` up to the node count |
| Matrix.PaddedGrowth | nfa.hpp:147-167 | pushing an all-false row of the current size for each new node, then padding every row, gives exactly the old matrix resized: old entries kept, new entries false |
| Matrix.ResizedEdgeEntries | nfa.hpp:145-170 | after growing and setting (i, j), the matrix is square, and an entry is true iff it is (i, j) or was true before |
| Matrix.ResizedEdgeIdempotent | nfa.hpp:145-170 | setting an edge already present in a square matrix leaves it unchanged |
| Paths.FindStatusInWay | nfa.hpp:371-379 | true iff some position of the way holds the id; the empty way holds none |
| Paths.SearchMembers | nfa.hpp:329-369 | a way is produced from `src` iff it starts at an unvisited successor and is either a self-loop path (only when self-loops are kept), a one-step path to an accepting node, or a non-accepting successor followed by a way found from it with `src` pushed on the ancestor chain |
| Paths.StepMembers | nfa.hpp:335-367 | the loop iteration for successor `dst` produces exactly the search ways from `src` that start at `dst` |
| Paths.SearchShape | nfa.hpp:329-369 | every produced way is a walk from a successor of `src`, touches no ancestor, and ends at an accepting node or (self-loops kept) at a self-looping one; with self-loops skipped it repeats no id and never contains `src` |
| Paths.SearchComplete | nfa.hpp:329-369 | every walk from a successor of `src` that repeats no id, avoids `src` and the ancestors, and ends at an accepting node is produced, whether or not self-loops are skipped |
| Paths.KeptSelfLoopRepeats | nfa.hpp:329-369 | with self-loops kept, edges 0→1, 1→1 and 1→2 make the search from 0 yield the way [1, 1], which repeats an id |
| Paths.AcceptingHasNoWays | nfa.hpp:134-143 | an accepting node has no ways unless its self-loop is kept |
| Paths.SearchBelow | nfa.hpp:329-369 | every id on a produced way is a node id |
| Paths.SortWaysSpec | nfa.hpp:386-391 | the sorted ways are a permutation of the input, in nondecreasing length |
| Paths.WaysThroughMembers | nfa.hpp:181-189 | the filter keeps exactly the ways containing `dst` and never lengthens the list |
| Paths.WaysThroughAppend | nfa.hpp:181-189 | the filter keeps the stored order: it distributes over concatenation |
| Eval.GoalIndex | nfa.hpp:239-245 | the index where a way succeeds is its first goal position (the last node for `test(src)`, the first `dst` for `test(src, dst)`), or the way's length when it has none |
| Eval.WalkFromSpec | nfa.hpp:236-247 | the inner loop succeeds iff every node up to the goal is met; the ids it evaluates are a prefix of the way that never passes the goal, all but the last of them met, and a failing walk stops at its first unmet node |
| Eval.WalkWhole | nfa.hpp:236-247 | a whole way succeeds iff it meets every node up to its goal, and evaluates only ids up to that goal |
| Eval.TryFromSpec | nfa.hpp:233-248 | the outer loop succeeds iff some way succeeds, and every id it evaluates lies up to the goal of a way that no earlier way beat |
| Eval.EvaluateSpec | nfa.hpp:218-250 | a `test` is true iff there is a candidate way, `src` is met and some candidate succeeds; with no candidates nothing is evaluated, an unmet `src` is the only id evaluated, and otherwise evaluation starts at `src` |
| Eval.ForkedWays | nfa.hpp:401-415 | for edges 0→1→2 and 0→3→4→5, the table the store builds for node 0 is [1, 2] then [3, 4, 5] |
| Eval.ShortCircuit | nfa.hpp:218-250 | for that graph, with every node met except node 1, `test(0)` over its stored ways is true and evaluates 0, 1, 3, 4, 5: the way through 1 is abandoned there, so node 2 is never evaluated |
| Store.RegisterOk | nfa.hpp:147-163 | registering a node keeps the name table a bijection onto the ids |
| Store.RegisterGrows | nfa.hpp:147-163 | registration appends only an unseen node, gives it the next id and keeps every known id |
| Store.ConnectedOk | nfa.hpp:145-173 | the store after `connect` keeps every invariant: bijective name table, square matrices of the node count, reverse matrix the transpose |
| Store.ConnectedNames | nfa.hpp:147-163 | only unseen names are appended, `src` before `dst`, with the ids `size()` and `size()+1`; `connect(x, x)` with a new name adds one node; known ids never change |
| Store.ConnectedIds | nfa.hpp:147-163 | after `connect` a name has an old id iff it was known, known ids are kept, and a name has the id of `src` (of `dst`) iff it is that name |
| Store.ConnectedParts | nfa.hpp:145-170 | `connect` is registration of both names, both matrices resized to the new count, then the edge set in each; both ids index the resized matrices |
| Store.ConnectedEdges | nfa.hpp:145-170 | the edges after `connect`, by name, are exactly the old ones plus `src -> dst`, and the reverse matrix gains `dst -> src` |
| Store.ConnectedIdempotent | nfa.hpp:145-173 | a `connect` whose edge already exists changes nothing |
| Store.ConnectTwice | nfa.hpp:145-173 | `connect(a, b)` twice leaves the same store as once |
| Store.BuiltStep | nfa.hpp:401-415 | filling in the sorted search from id `k` extends the table of the ids below `k` to those below `k + 1` |
| Store.BuiltUnique | nfa.hpp:401-415 | a complete path table is determined by the matrix and the self-loop setting |
| Automaton.Touch | nfa.hpp:223 | `_way_pointers[id]` inserts an empty entry for a missing key and changes no other entry |
| Automaton.Nfa.constructor | nfa.hpp:89-92 | a new store is empty, skips self-loops and does not reverse |
| Automaton.Nfa.FindStatus | nfa.hpp:101-103 | an id is found iff some registered name has it |
| Automaton.Nfa.FindStatusId | nfa.hpp:105-110 | -1 iff the name is unregistered; otherwise the id of the node with that name |
| Automaton.Nfa.FindStatusName | nfa.hpp:112-120 | the name registered for an id, or the empty name for an id outside 0..size()-1 |
| Automaton.Nfa.IsAcceptStatus | nfa.hpp:134-143 | 1 iff no edge leaves the node for a different node, else 0 |
| Automaton.Nfa.IsAcceptStatusByName | nfa.hpp:122-127 | -1 for an unknown name, otherwise `is_accept_status` of its id |
| Automaton.Nfa.Update | nfa.hpp:425-428 | both matrices padded row by row to the node count |
| Automaton.Nfa.UpdateAllWays | nfa.hpp:401-415 | the rebuild completes iff no node is named `""`; it then holds, for exactly the ids 0..size()-1, the search from that id sorted shortest first; otherwise it holds those entries below the id of `""` |
| Automaton.Nfa.Register | nfa.hpp:147-163 | one node's registration: an unknown name gets the next id and an all-false row of the new size in both matrices |
| Automaton.Nfa.RegisterPair | nfa.hpp:147-163 | registering `src` then `dst` gives the name table and node list of `Store.Connected`, returns their ids, and only grows the matrices |
| Automaton.Nfa.Rewire | nfa.hpp:145-169 | the store after registration, padding and setting the edge is `Store.Connected` of the old store |
| Automaton.Nfa.Connect | nfa.hpp:145-173 | the new store is `Store.Connected` of the old one; the path table is rebuilt (completely iff no node is named `""`); re-adding an existing edge changes neither the store nor a current path table |
| Automaton.Nfa.StatusTestRun | nfa.hpp:198-210 | the verdict is the node's test under `reverse`; the action receives "outcome == target" |
| Automaton.Nfa.WalkWay | nfa.hpp:233-247 | the inner loop over one way gives exactly the verdict and the evaluated ids of `Eval.WalkFrom`; only the nodes it evaluates need a test callback |
| Automaton.Nfa.WalkWays | nfa.hpp:225-250 | from the empty check on, the verdict and evaluated ids are those of `Eval.Evaluate`; only the nodes it evaluates need a test callback |
| Automaton.Nfa.Test | nfa.hpp:218-250 | an unknown id gives false with nothing evaluated; otherwise the result is `Eval.Evaluate` over the stored ways of `src`, each succeeding at its last node, after `_way_pointers[src]` |
| Automaton.Nfa.TestByName | nfa.hpp:252-257 | an unknown name gives false with nothing evaluated and no change; otherwise it is `test` of the name's id |
| Automaton.Nfa.FindWays | nfa.hpp:181-189 | the stored ways of `src` that contain `dst`, in stored order, after `_way_pointers[src]` |
| Automaton.Nfa.CheckConnect | nfa.hpp:191-196 | true iff some stored way of `src` contains `dst` |
| Automaton.Nfa.TestTo | nfa.hpp:266-301 | an unknown `src` gives false with nothing evaluated; otherwise `Eval.Evaluate` over the ways of `src` that contain `dst`, each succeeding at its first `dst` |
| Automaton.Nfa.TestToByName | nfa.hpp:303-316 | either name unknown gives false with nothing evaluated and no change; otherwise `test(src, dst)` of the two ids |
| Wiring.QualifiesShape | nfa.hpp:475-486 | an admitted edge joins two different names, goes to a strictly lighter node, stays in its tier or goes exactly one tier down, and is never admitted the other way round |
| Wiring.SortByWeight | nfa.hpp:465-466 | the reordered set is a permutation of the input, heaviest first |
| Wiring.TargetsMembers | nfa.hpp:472-488 | the connects issued for one node are exactly to the members of the set the tier rule admits |
| Wiring.PairsMembers | nfa.hpp:464-470 | the connects issued by the outer loop are exactly the admitted pairs |
| Wiring.WireAppend | nfa.hpp:467-469 | issuing two runs of connects in turn is issuing the first and, if it completed, the second |
| Wiring.WireKeeps | nfa.hpp:464-488 | issuing connects never removes an edge |
| Wiring.WireOnlyRequested | nfa.hpp:464-488 | every edge issuing connects adds is one of the requested pairs |
| Wiring.WireComplete | nfa.hpp:464-488 | when every `connect` completes, every requested edge is present |
| Wiring.WireEdges | nfa.hpp:464-488 | wiring keeps every old edge and adds only requested ones; when every `connect` completes, every requested edge is present |
| Wiring.WiredAdmitted | nfa.hpp:464-488 | after a completed wiring of a set against itself, the edges are exactly the old ones and those between admitted pairs, by name |
| Wiring.AdmitsSameMembers | nfa.hpp:465-466 | whether a pair of names is admitted depends only on which nodes are in the set, not on their order |
| Wiring.WireKeepsName | nfa.hpp:464-488 | issuing connects never unregisters a name |
| Wiring.WireNewName | nfa.hpp:464-488 | a name registered by issuing connects was registered before or is an end of a requested pair |
| Wiring.CombinationEdges | nfa.hpp:464-488 | after a completed `combination_by_weight`, the edges are the old ones and those between admitted pairs of the input set, whatever order the sort leaves equal weights in |
| Wiring.CombinationNames | nfa.hpp:464-488 | `combination_by_weight` over a set, completed or not, keeps every registered name and never registers a new name that no admitted pair of the set has at an end |
| Wiring.ThreeTiers | nfa.hpp:464-488 | for weights 2.5, 2.1 and 1.0 the connects are 2.5→2.1, 2.5→1.0 and 2.1→1.0 |
| Wiring.CombineTarget | nfa.hpp:474-486 | one iteration skips a target with the same name, connects `s -> t` when the tier rule admits it and otherwise changes nothing; after a completed connect the path table is current; after a `connect` that throws, the empty name is registered and the table holds exactly the ids below its id |
| Wiring.CombineOne | nfa.hpp:472-488 | the store after `_combination_by_weight` is that after issuing its admitted connects in order, stopping at a `connect` that throws; with no admitted target the path table is untouched; on completion it is current if any connect ran and stays current if it was; after a `connect` that throws, the empty name is registered and the table holds exactly the ids below its id |
| Wiring.CombineEach | nfa.hpp:467-469 | the outer loop issues the connects of each node in order, stopping at the first that throws; on completion the path table is current if any connect ran and stays current if it was; after a `connect` that throws, the empty name is registered and the table holds exactly the ids below its id |
| Wiring.CombinationByWeight | nfa.hpp:464-470 | the set is sorted heaviest first, then every admitted pair of it is connected in that order, stopping at a `connect` that throws; on completion the path table is current if any connect ran and stays current if it was; after a `connect` that throws, the empty name is registered and the table holds exactly the ids below its id |

## Left out

- Console output: `show`, `show_ways` and the whole of `test_nfa.cpp` only print.
- `get_status` returns a pointer, and the model has no pointers. Two `NFA_Status` objects with the same name are told apart only by their fields.
- The store keeps `NFA_Status*` pointers to the caller's objects (nfa.hpp:151, 202). A later `set_target`, `set_test_func` or `set_weight` on such an object changes how the graph evaluates. The model keeps a copy of each node taken at registration, so such later changes are not seen.
- The test and run callbacks are function pointers. The test outcome is a parameter `raw` of the evaluation methods. The run callback's return value is dropped, as `status_test_run` drops it. A `run` without a callback returns 0, which is unobservable.
- `sort_ways(ways, true)`, the longest-first branch, is never called by the core and is not modelled.
- Paths.SortWaysSpec: `std::sort` fixes no order among ways of equal length. The model fixes the stable order, where `std::sort` may choose another: ways of equal length keep the order the search produced them in. `Automaton.Nfa.UpdateAllWays` and `Automaton.Nfa.Connect` store exactly that order, and the ids that `Test` and `TestTo` evaluate depend on it. The lemma itself states only permutation and nondecreasing length, which is all `std::sort` promises.
- Wiring.SortByWeight: `std::sort` fixes no order among nodes of equal weight. The model fixes the stable order, where `std::sort` may choose another: nodes of equal weight keep their input order. `Wiring.CombinationByWeight` returns and uses that order, and it decides which ids newly registered nodes get. Its contract states only permutation and heaviest first. The edges by name do not depend on the order (`Wiring.CombinationEdges`). The sort leaves that order on the caller's vector. The model returns it instead of reordering in place.
- Node.Trunc: weights are IEEE doubles in the source and reals here. Rounding, NaN and conversions out of `int` range are not modelled. `NFA_Status()` leaves the weight uninitialised, and that is not modelled either.
- Automaton.Nfa.StatusTestRun: requires an id in range and a node with a test callback. For any other id the source's bare `throw;` ends the program.
- Automaton.Nfa.Test: requires a test callback on every node the call evaluates, that is, on the ids `Eval.Evaluate` lists. On the first such node without one, the source's bare `throw;` ends the program. Nodes the call never reaches need no callback.
- Automaton.Nfa.TestByName: requires a test callback on every node the call evaluates, as `Test` does.
- Automaton.Nfa.TestTo: requires a test callback on every node the call evaluates, as `Test` does.
- Automaton.Nfa.TestToByName: requires a test callback on every node the call evaluates, as `Test` does.
- Automaton.Nfa.IsAcceptStatus: requires an id in range. The source indexes the matrix without a check.
- Concurrency: the source is single-threaded and the model is too.
- Facts about the code that the model follows:
  - With `skip_self` true, a stored way holds only the ids after its source; the source id itself is never pushed onto it (nfa.hpp:341-343, 353). With `skip_self` false, a source with a self-loop also stores the way `[src]` (nfa.hpp:339, 360-363).
  - With `skip_self` false, an inner self-loop repeats an id on a way (`Paths.KeptSelfLoopRepeats`). With the default `skip_self` true, no way repeats an id (`Paths.SearchShape`).
  - `std::sort` is not stable. The model fixes the stable order, as the `Paths.SortWaysSpec` and `Wiring.SortByWeight` lines above say.
  - The tier of a node is `(int)weight`, which truncates toward zero, so weights in (-1, 1) share tier 0 (`Node.Trunc`).
  - With weights 2.5, 2.1 and 1.0, the 2.1 node is connected to the 1.0 node, one tier down (`Wiring.ThreeTiers`).
