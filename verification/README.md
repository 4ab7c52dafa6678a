# Campus eatery router — a Dafny model

The system keeps a campus walking graph (node coordinates plus weighted
adjacency) and a table of eatery records (rating, price level, amenity
flags, opening hours). For a user's start node and factor ranking it
scores every open eatery and then does one of two things:

- routes, by uniform-cost search or A*, to the best-scored eatery that can
  be reached;
- lists the best `n` eateries.

An older module searches towards a whole set of goals, guided by a
Manhattan/metadata estimate.

This project models that core in Dafny, with the following modules:

- `Values` covers Python's dynamic values and the coercions `float()`,
  `int()`, `strip()` and `lower()`.
- `Paths` covers paths, their costs, reachability and consistency of
  estimates.
- `GraphStore` covers `validate_graph` and the four graph mutators, as
  pure functions.
- `AttributeStore` covers `validate_attributes`, `update_eatery` and
  `remove_eatery`.
- `OpenHours` covers `is_open`, with the clock as a parameter.
- `Scoring` covers the default weights, `convert_ranks_to_weights`,
  `normalize_value` and `compute_scores`.
- `Connectivity` covers `check_connectivity`.
- `BestFirst` is one best-first search loop that every search in the
  system instantiates: a heap of `(priority, cost, path)` tuples in
  Python's tuple order, a visited set, and pushes of unvisited neighbours.
  `ucs_search`'s `(cost, path)` heap is the case where the priority is the
  cost.
- `Pathfinding` covers `validate_path`, `ucs_search` and `a_star_search`.
- `Heuristics` and `LegacySearch` cover the older goal-set searches.
- `Ranking` covers the stable best-first sort of the score mapping and the
  cut to the first `n`.
- `Selector` covers `find_optimal_path` and `get_top_eateries`.

Some outside inputs are modelled as parameters:

- The great-circle distance (`haversine`) is a function parameter `dist`.
- The wall clock is `now`, in microseconds since midnight.
- Dict key order is a sequence parameter wherever the result depends on it.

Dafny `real` stands for Python floats throughout.

## Model

| member | source | states |
|---|---|---|
| GraphStore.ValidateGraph | backend_final/backend.py:125-175 | Reports `Fine` exactly when coordinates are in range, every adjacency key and neighbour is a node, and no edge is a self-edge or non-positive. Otherwise it names an offending node of the earliest failing check, in the order coordinates, references, weights. |
| GraphStore.FindBadCoordinates | backend_final/backend.py:144-153 | Finds no node exactly when every node's latitude is in [-90, 90] and its longitude in [-180, 180]; a node it names is out of range. |
| GraphStore.FindBadReference | backend_final/backend.py:155-161 | Fine exactly when no adjacency key and no neighbour is missing from the nodes; the named node or neighbour is missing. |
| GraphStore.FindBadWeight | backend_final/backend.py:163-173 | Fine exactly when no edge is a self-edge and every weight is positive; the named edge is a self-edge or has weight <= 0. |
| GraphStore.AddNode | backend_final/backend.py:196-213 | A rejection leaves the graph unchanged. A blank id is refused first, then non-numeric coordinates, then out-of-range coordinates, then an existing id, each with its own error. It succeeds exactly for a non-blank new id with numeric in-range coordinates. The node then exists with an empty adjacency, and other adjacency maps are untouched. Validity, symmetry and an adjacency entry per node are preserved. |
| GraphStore.NodeAddedKeeps | backend_final/backend.py:211-212 | Adding an in-range node with an empty adjacency map keeps a graph valid, symmetric and fully indexed. |
| GraphStore.AddEdge | backend_final/backend.py:215-232 | A rejection leaves the graph unchanged. A missing endpoint is refused first, then a self-edge, then a non-numeric cost, then a cost <= 0, each with its own error. It succeeds exactly for two distinct nodes and a numeric positive cost, and then `edges[a][b] == edges[b][a] == cost`. Every other ordered pair keeps its edge and weight. Validity, symmetry and indexing are preserved. |
| GraphStore.PairAddedKeeps | backend_final/backend.py:229-231 | Setting both directions of a positive edge between distinct nodes, with nothing else changed, keeps validity, symmetry and indexing. |
| GraphStore.ChangedPairsSymmetric | backend_final/backend.py:229-231 | A graph that differs from a symmetric one only on the pair a-b, where it is present both ways with one weight or absent both ways, is symmetric. |
| GraphStore.RemoveNode | backend_final/backend.py:234-251 | Succeeds exactly for an existing node. The id then disappears from the nodes, the adjacency keys and every adjacency map. Every edge between two other nodes is kept with its weight, and validity, symmetry and indexing are preserved. |
| GraphStore.RemoveEdge | backend_final/backend.py:253-272 | A missing endpoint is refused, then a pair with no edge in either direction, with the missing-edge error. It succeeds exactly when the endpoints exist and at least one direction is present. Afterwards neither direction exists and every other ordered pair is unchanged. Validity, symmetry and indexing are preserved. |
| GraphStore.PairRemovedKeeps | backend_final/backend.py:260-267 | Deleting both directions of a pair, with nothing else changed, keeps validity, symmetry and indexing. |
| GraphStore.AddThenRemoveEdge | backend_final/backend.py:215-272 | A successful `add_edge` on a previously unconnected pair, followed by `remove_edge`, gives back the original graph. |
| GraphStore.AddThenRemoveNode | backend_final/backend.py:196-251 | Adding a fresh node that nothing refers to and removing it again gives back the original graph. |
| AttributeStore.ValidateAttributes | backend_final/backend.py:277-304 | Fine exactly when every present rating reads as a number in [0, 5] and every present price as an integer >= 0. A reported error names a record whose rating fails, or whose rating passes and price fails. An unparseable rating gives the invalid-rating error and a parsed one outside [0, 5] the range error; likewise an unparseable price gives the invalid-price error and a negative one the range error. |
| AttributeStore.AmenityFlag | backend_final/backend.py:348-357 | Always 0 or 1. A boolean or integer gives 1 iff it is true or non-zero; a string gives 1 iff its lower-cased form is one of `true`, `yes`, `1`, `y`, `t`; any other value, a float included, gives 0. |
| AttributeStore.CoerceField | backend_final/backend.py:333-359 | A rating is stored as a float iff it reads as one in [0, 5], and a price as an int iff it reads as one >= 0. Each amenity flag is stored as its 0/1 coercion, and any other key as given. |
| AttributeStore.ApplyFields | backend_final/backend.py:333-359 | Writing the payload field by field stops at the first refused field. The written fields hold their coerced values, the refusal belongs to the next field, and keys no written field names are untouched. |
| AttributeStore.UpdateEatery | backend_final/backend.py:325-361 | A non-dictionary payload changes nothing. Otherwise the record exists afterwards and every other record is unchanged, even when a field is refused. |
| AttributeStore.UpdateReports | backend_final/backend.py:330-361 | An update reports success exactly when every field is accepted, and then every field is written. A failure carries the error of a refused field, and every field before it stays written. |
| AttributeStore.ApplyOutcome | backend_final/backend.py:333-361 | The write count and refusal of the field loop in reporting terms: the first `n` fields are written, field `n` is the refused one, and no refusal means all fields were accepted. |
| AttributeStore.UpdateKeepsValid | backend_final/backend.py:325-361 | An update of attributes that pass `validate_attributes` yields attributes that still pass it. |
| AttributeStore.RecordStaysValid | backend_final/backend.py:333-359 | Only range-checked ratings and prices are ever written into a record. |
| AttributeStore.RemoveEatery | backend_final/backend.py:363-369 | Succeeds exactly for an existing id, which is then deleted with all other records unchanged; otherwise nothing changes. Validity is preserved. |
| AttributeStore.UpdateThenRemove | backend_final/backend.py:325-369 | Updating an eatery that did not exist and then removing it gives back the original attributes, whether or not the update was refused part-way. |
| OpenHours.IsOpen | backend_final/backend.py:400-436 | Open for a missing, non-string or empty specification, for `24/7` in any case, for a split other than two parts, and for a part that does not parse as `%H:%M`. |
| OpenHours.ParseClock | backend_final/backend.py:427-428 | A time `strptime(_, "%H:%M")` accepts has hour <= 23 and minute <= 59. |
| OpenHours.FormatParses | backend_final/backend.py:427-428 | Every valid clock time written as zero-padded `HH:MM` parses back to itself, is unchanged by strip and contains no `-`. |
| OpenHours.WindowSpecDecided | backend_final/backend.py:417-433 | For every well-formed `HH:MM-HH:MM` specification, `is_open` answers exactly whether `now` lies in the window read forward round the clock from the opening time. |
| OpenHours.WindowParsed | backend_final/backend.py:414-428 | A formatted window is not the always-open marker, splits into two parts, and each part parses back to its clock time. |
| OpenHours.WindowAgrees | backend_final/backend.py:430-433 | The rule "close < open means `now >= open or now <= close`, otherwise `open <= now <= close`" coincides with the forward walk round the clock. |
| OpenHours.OvernightExample | backend_final/backend.py:430-432 | `22:00-02:00` counts as open at 01:00. |
| Scoring.DefaultWeightsSum | backend_final/backend.py:28-38 | The default weights sum to exactly 1. |
| Scoring.DefaultWeightsCover | backend_final/backend.py:28-40 | Every default weight is positive and belongs to a known factor, and every known factor has a default weight. |
| Scoring.ValidRanks | backend_final/backend.py:457-465 | Keeps known factors whose rank reads as a positive integer, in order. It is empty exactly when no entry is usable. |
| Scoring.MaxRank | backend_final/backend.py:471 | Is the largest of the usable ranks. |
| Scoring.ConvertRanksToWeights | backend_final/backend.py:441-475 | Gives the defaults for an empty ranking or one with no usable entry. Otherwise there is one weight per usable factor, in order. Every weight is positive and belongs to a known factor. |
| Scoring.WeightsSumToOne | backend_final/backend.py:467-475 | The weights from any ranking sum to exactly 1 before rounding. |
| Scoring.RanksOrderWeights | backend_final/backend.py:470-475 | A smaller rank gets a strictly larger weight and equal ranks get equal weights, both directions of the equivalence. |
| Scoring.Clamp | backend_final/backend.py:494 | The clamped value lies in [min, max] and equals the value when the value is already inside. |
| Scoring.NormalizeValue | backend_final/backend.py:477-497 | Always in [0, 1], and exactly 0.5 when `max <= min`. |
| Scoring.NormalizeEnds | backend_final/backend.py:490-497 | On a proper range, min and max map to 0 and 1, or to 1 and 0 when inverted. The inverted result is 1 minus the plain one. |
| Scoring.NormalizeMonotone | backend_final/backend.py:493-497 | Normalising keeps the order of values and inversion reverses it. |
| Scoring.OpenEateries | backend_final/backend.py:514-518 | An eatery is kept exactly when it is listed, has a record, is a graph node and is open at `now`. |
| Scoring.OpenIndices | backend_final/backend.py:514-518 | The positions in the key order of the admitted eateries, strictly ascending, with every admitted position present. |
| Scoring.OpenEateriesSnoc | backend_final/backend.py:515-518 | A key appended to the order is appended to the open eateries exactly when it is admitted. |
| Scoring.OpenEateriesKeepOrder | backend_final/backend.py:515-518 | The open eateries are the admitted keys taken in key order: entry `k` is the key at the `k`-th admitted position. |
| Scoring.NormalisableIff | backend_final/backend.py:477-551 | A factor's collected values can go through `min`, `max` and `normalize_value` without raising exactly when no two of them clash. That holds when there are fewer than two values, when all are numbers (bools included), or when all are one and the same string. |
| Scoring.FirstClash | backend_final/backend.py:538-551 | Names a factor exactly when scoring raises. The factor it names is not `distance`, and its collected values cannot be normalised. |
| Scoring.Collected | backend_final/backend.py:534-542 | Every value an open eatery has for a factor is among the values normalised over. |
| Scoring.MinOf | backend_final/backend.py:548 | Is no larger than any collected value. |
| Scoring.MaxOf | backend_final/backend.py:549 | Is no smaller than any collected value. |
| Scoring.ComputeScores | backend_final/backend.py:499-575 | Raises exactly when some weighted factor other than `distance` collects two clashing values from the open eateries: `None` next to anything, a string next to a number or a different string. Otherwise it gives one score per open eatery, in key order, and each score is that eatery's weighted sum of normalised factor values (`Score`), so ScoreBounds and ScoreDominance apply to the output. With non-negative weights every score lies in [0, sum of weights]. |
| Scoring.StringRatingScoresHalf | backend_final/backend.py:544-570 | A lone open eatery rated with the string "4.5" scores half the rating weight, since one value makes an empty range. |
| Scoring.MixedRatingsRaise | backend_final/backend.py:546-549 | A string rating next to an integer rating makes scoring raise. |
| Scoring.ScoreBounds | backend_final/backend.py:553-572 | With non-negative weights an eatery's weighted sum of normalised values lies between 0 and the weight sum. |
| Scoring.FactorScoreBounds | backend_final/backend.py:559-570 | One factor contributes between 0 and its weight. |
| Scoring.ScoreDominance | backend_final/backend.py:553-572 | With non-negative weights, an eatery no worse than another on every weighted factor scores at least as high. |
| Scoring.FactorDominance | backend_final/backend.py:559-570 | For one factor, a value no worse (lower for price and distance, higher otherwise) earns at least as much. A missing value earns nothing, and two string values earn the same. |
| Connectivity.CheckConnectivity | backend_final/backend.py:580-616 | True exactly when start equals goal, or both are nodes and the goal is reachable from the start along edges. |
| Connectivity.EnqueueNeighbors | backend_final/backend.py:611-614 | Queuing the unvisited neighbours keeps every queued node reachable, and every edge out of a visited node leads to a visited or queued node. |
| BestFirst.ArgMin | backend_final/backend.py:725 | `heappop` picks an entry that no other entry precedes in tuple order, so its priority is minimal. |
| BestFirst.EntryLessTransitive | backend_final/backend.py:717 | Python's order on `(priority, cost, path)` tuples is transitive. |
| BestFirst.Expand | backend_final/backend.py:745-751 | The pushed entries are valid paths from the start with their costs, each with priority equal to cost plus estimate, and every edge to an unvisited node has a waiting entry. |
| BestFirst.Step | backend_final/backend.py:722-751 | One pop either answers the search or keeps the loop invariant while strictly shrinking the unvisited part or the heap. When goals are tested before the visited check and the start is a goal, the first pop answers with the initial entry. |
| BestFirst.Settle | backend_final/backend.py:727-751 | A popped entry answers the search when its tip is a goal, is dropped when its tip was visited, and otherwise has its tip visited and neighbours pushed. The loop invariant is kept and the count of expansions stays within the reachable nodes. With goals tested first, a popped goal always answers. |
| BestFirst.Run | backend_final/backend.py:713-756 | A found path runs from the start to a goal at its edge-weight cost. With a consistent estimate no path to a goal is cheaper, estimate included. Exhaustion means no goal is reachable. The expansion count is at most the number of nodes reachable from the start. With goals tested first, a start in the goal set gives `[start]` at cost 0. |
| Pathfinding.ValidatePath | backend_final/backend.py:758-778 | True exactly for an empty path or one whose consecutive nodes are all joined by edges; one-node paths pass. |
| Pathfinding.Guarded | backend_final/backend.py:630-682 | Finds a path exactly when both endpoints are nodes and connected. Otherwise it reports the first failing check: start, goal, then connectivity. A found path runs start to goal at its cost. Start equal to goal gives `([start], 0, 1, 1)`. |
| Pathfinding.UcsSearch | backend_final/backend.py:621-682 | `ucs_search` succeeds exactly when start and goal are connected nodes and reports the first failing check otherwise. A found path runs from start to goal at its edge-weight cost. With non-negative weights the cost is minimal. |
| Pathfinding.AStarSearch | backend_final/backend.py:684-756 | As `ucs_search`, with the distance estimate; with a consistent estimate the cost is minimal. |
| Pathfinding.DistanceConsistent | backend_final/backend.py:706-712 | A distance obeying the triangle inequality towards the goal, on a graph whose edges are never shorter than it, gives a consistent A* estimate. |
| Heuristics.Manhattan | backend/heuristics.py:1-2 | The Manhattan distance is non-negative and zero exactly between equal positions. |
| Heuristics.ManhattanSymmetric | backend/heuristics.py:1-2 | `manhattan(a, b) == manhattan(b, a)`. |
| Heuristics.ManhattanTriangle | backend/heuristics.py:1-2 | The Manhattan distance obeys the triangle inequality. |
| Heuristics.CompositeDefault | backend/heuristics.py:4-17 | A goal without metadata is estimated as `alpha * distance + beta / 100 + gamma * 3 + delta * 50`. |
| Heuristics.CompositeLipschitz | backend/heuristics.py:4-17 | With `alpha >= 0` the composite estimate changes between two positions by at most `alpha` times their Manhattan distance. |
| Heuristics.MinComposite | backend/algorithms.py:45 | The minimum over the goals is no larger than each goal's estimate and equals one of them. |
| Heuristics.MinCompositeLipschitz | backend/algorithms.py:45 | The minimum over the goals inherits the Lipschitz bound. |
| LegacySearch.GoalSet | backend/algorithms.py:5 | Contains exactly the listed goals. |
| LegacySearch.UniformCostSearch | backend/algorithms.py:4-24 | Returns a path exactly when some goal is reachable. The path runs from start to a goal at its edge-weight cost. With non-negative weights no path to any goal is cheaper. A start that is itself a goal gives `([start], 0)`. |
| LegacySearch.AStarSearch | backend/algorithms.py:26-48 | Returns a path exactly when some goal is reachable. The path runs from start to a goal, and its cost is the accumulated `g` without the estimate. With a consistent estimate it is optimal up to the estimate at the path's end. A start that is a goal gives `([start], 0)`. |
| LegacySearch.EstimateConsistent | backend/algorithms.py:42-46 | With `alpha >= 0` and edges no shorter than `alpha` times the Manhattan distance, the goal-set estimate is consistent. |
| LegacySearch.EdgeConsistent | backend/algorithms.py:42-46 | Along one such edge, the estimate drops by at most the edge's weight. |
| LegacySearch.Answered | backend/algorithms.py:13-24 | A search outcome that reaches a goal or exhausts the reachable goals answers exactly "some goal is reachable". |
| LegacySearch.ProfileWeights | backend/app.py:25-31 | Every profile, and the fallback, weights distance and price positively and quality and reviews negatively. |
| Ranking.InsertDesc | backend_final/backend.py:820 | Inserting into a best-first order keeps it a best-first order of the same entries plus the new one. |
| Ranking.SortDesc | backend_final/backend.py:820 | The sorted scores are a permutation of the scores, ordered best first. |
| Ranking.SortStable | backend_final/backend.py:820 | The sort is stable: entries with equal scores keep their relative order. |
| Ranking.InsertTied | backend_final/backend.py:820 | An inserted entry goes ahead of the entries with its own score. |
| Ranking.TopIsBest | backend_final/backend.py:917 | Nothing outside the first `n` entries of a best-first order scores above anything inside. |
| Ranking.AheadOf | backend_final/backend.py:820-824 | An entry scoring above position `i` of a best-first order sits before it. |
| Selector.WeightsFor | backend_final/backend.py:811 | The weights used are never empty and all positive, and are the defaults for an empty ranking. |
| Selector.Search | backend_final/backend.py:829-836 | Dispatching on `ucs` or `astar` finds a path exactly when the goal is connected, with the optimality each search guarantees. |
| Selector.TryCandidates | backend_final/backend.py:820-865 | The candidate loop reaches an eatery exactly when some scored eatery is connected. The one reached is the first connected entry of the best-first order, with a valid path, so no strictly better-scored entry is reachable. |
| Selector.BetterUnreachable | backend_final/backend.py:824-863 | Once the searches to the first `i` sorted entries have failed, no entry scoring above entry `i` is reachable. |
| Selector.AllUnreachable | backend_final/backend.py:824-865 | When every search fails, no scored eatery is reachable. |
| Selector.FindOptimalPath | backend_final/backend.py:783-872 | Errors in code order: unknown start, then the unexpected error when scoring raises, then no open eatery, unknown algorithm and nothing reachable. Without a scoring error, a route exists exactly when some open eatery is reachable. The route goes to the first reachable eatery of the best-first order, with its score, record, open status and direct distance, along a valid path at its cost. No better-scored eatery is reachable. The path is shortest under the searches' conditions. |
| Selector.SameCandidates | backend_final/backend.py:815-818 | The scored eateries are exactly the open ones, so a scored eatery is reachable exactly when an open one is. |
| Selector.ScoredIsOpen | backend_final/backend.py:514-518 | Every scored eatery is open, has a record and is a graph node. |
| Selector.TopN | backend_final/backend.py:917 | Takes `min(n, count)` entries of the scores, best first, and nothing left out scores above anything kept. |
| Selector.GetTopEateries | backend_final/backend.py:874-940 | A non-integer `top_n` is refused, then one below 1. The start is checked next, then whether scoring raises (the unexpected error), then that some eatery is open. A listing holds the best `min(top_n, 10)` scored eateries, best first and ranked from 1, each open with its record and direct distance. |
| Selector.ListTop | backend_final/backend.py:906-940 | After `top_n` is settled: unknown start, then the unexpected error when scoring raises, then no open eatery; otherwise the top listing. |
| Selector.ListingIsTop | backend_final/backend.py:917-937 | Listings built from the best `n` entries form the top listing. |
| Selector.Listings | backend_final/backend.py:919-937 | One listing per chosen entry, ranked from 1, carrying the eatery's record, open status and direct distance. |

## Left out

- File I/O is not modelled: `load_data`, `save_data`, `safe_filename`, `load_graph`/`save_graph` and `load_attributes`/`save_attributes`. The entry points take the graph and attributes as already loaded.
- The Flask request layers (`app.py`, `backend_final/app.py`, `backend/app.py`) are HTTP plumbing. Only the profile weight table of `backend/app.py` is modelled.
- `compare_algorithms` is a timing wrapper around two calls.
- `debug_log`, `time.perf_counter`, `tracemalloc`, the execution time and the peak memory are metrics with no effect on results. A route carries the expansion count and the largest heap size only.
- `haversine` is trigonometry on floats and becomes the parameter `dist`. `datetime.now()` becomes the parameter `now`.
- One clock reading `now` serves every `is_open` call of a request. Python reads the clock afresh in each call, both in the open filter of `compute_scores` and in the later open-status lookups of the two entry points. So a route or listing computed across a closing time can report "Closed" in Python, where the model's `open` field is always true.
- Floating point is modelled by `real`. The rounding done by `round(..., 4)` on weights and scores, and by `round(..., 1)` on listing distances, is not modelled.
- The default weights are modelled as exact quotients by 1.1.
- Field values are limited to bool, int, float, str and None. A JSON array or object stored as an attribute is not modelled: Python would store it as amenity flag 0 in `update_eatery`, and `compute_scores` would raise TypeError if it sat next to a number.
- Values that Python's type checks reject by shape cannot occur in the model because it is typed: a non-dictionary graph or record, coordinates that are not a two-element list, non-string ids.
- `validate_graph` only checks that `float()` accepts each coordinate and weight; it keeps the raw value, so a numeric string such as `"2.5"` or a JSON `NaN` weight passes it unconverted. The model's graph holds real numbers only. The inputs on which Python's searches (`cost + edge_cost`) and scoring (`math.radians` in `haversine`) then raise TypeError, answered as "Unexpected error" by the entry points, are not modelled.
- `float()` and `int()` on strings are modelled for plain decimal literals only. Exponents, `inf`/`nan`, underscores and non-ASCII digits read as non-numbers. `strptime` fields likewise use ASCII digits only.
- Neighbour and dict iteration order is left arbitrary wherever a result does not depend on it. Every contract holds for any order, Python's insertion order included.
- GraphStore.ValidateGraph: it names some offending node of the earliest failing check, not necessarily the first in dict order.
- AttributeStore.ValidateAttributes: it names some failing record, not necessarily the first in dict order.
- GraphStore.AddEdge: for two distinct existing nodes and a valid cost, it requires an adjacency entry for both endpoints, where `add_edge` would raise KeyError.
- Scoring.ComputeScores: it requires the start to be a node whenever an eatery is open. `compute_scores` reads its coordinates, and both entry points check the start before calling it.
- Selector.FindOptimalPath: it requires a valid graph, which `load_graph` guarantees. The text of the "Unexpected error" message, Python's exception message, is not modelled.
- Selector.GetTopEateries: the KeyError fallback to distance 0 cannot happen, because every scored eatery is a graph node. The text of the "Unexpected error" message is not modelled.
- Pathfinding.AStarSearch: it requires every neighbour to be a node, where the heuristic's coordinate lookup would raise KeyError. Optimality is stated only for a consistent estimate, since edge costs are user-supplied.
- LegacySearch.AStarSearch: it requires non-empty goals, a position for every goal and neighbour, and non-zero goal prices. In Python these raise ValueError, KeyError or ZeroDivisionError. The estimate is not zero at a goal, so optimality holds up to the estimate at the path's end.
- Scoring.ConvertRanksToWeights: its weights are the unrounded quotients. A rounded list can miss a sum of exactly 1 by rounding error.
- AttributeStore.AmenityFlag follows the code: a float such as `1.0` gives 0, because it is neither a `bool`, an `int` nor a `str`.
