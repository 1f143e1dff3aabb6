# NetworkEnv: routing and wavelength assignment, modelled in Dafny

The system is an episodic routing-and-wavelength-assignment environment
over an undirected network graph. Every link has 10 wavelength slots. A
slot is either free (0) or holds the remaining holding time of the request
that occupies it. Building the environment does three things:

- it numbers the nodes and the edges in the graph's iteration order;
- it runs a disjoint-path search once for every unordered pair of distinct
  nodes;
- it stores exactly three candidate routes per pair, as sequences of edge
  ids (the path catalogue).

`reset` frees every slot, zeroes the counters and draws a request: a source
node, a different target node, and a holding time in [10, 20).

Each `step(action)` does the following, in order:

1. It decrements every positive slot by one.
2. It advances the round counter. The episode ends when the counter reaches 100.
3. It serves the current request. With action 0–2, the request goes on the
   chosen candidate route if every link of that route has room for one more
   request. Each link on the route then gives its lowest free slot to the
   holding time, and the reward is the holding time. Action 3, or a route
   without room, counts a block with reward −1.
4. It draws the next request.

The model is split into modules:

- `Topology` (topology.dfy): the node and edge index.
- `Catalogue` (catalogue.dfy): how the path catalogue is built, and what it
  contains.
- `LinkState` (linkstate.dfy): the link-state matrix as a value. It defines
  the specification functions for:
  - decay (`Decay`);
  - slot occupancy (`Used`);
  - the first free slot (`FirstFree`);
  - admission along a route (`AdmitPath`);
  - feasibility (`Feasible`).
- `LinkStore` (linkstore.dfy): the same matrix as a mutable `array2<int>`,
  changed in place. Each method is proved against the `LinkState` function
  it implements.
- `Env` (env.dfy): the environment as a class. It has one field per piece of
  the environment's state and the methods `Reset`, `Step` and their helpers.
  Each method's postcondition gives the new state in terms of the
  `LinkState` functions. The constructor establishes the class invariant
  `Valid`, and `Reset`, `Advance`, `Serve` and `Step` preserve it. It says:
  - the catalogue is well formed;
  - the matrix is E × 10 with every slot in [0, 20);
  - once reset, the live request names two distinct nodes and has a holding
    time in [10, 20).
- `Admissions` (admissions.dfy): the scenario of repeated admissions with
  one holding time along one route, round by round.

The graph arrives as three inputs:

- the node labels in iteration order;
- the edge list in iteration order;
- the disjoint-path search, as a function from a node pair to the node
  paths it found.

The search is required to return at least one path for every pair of
distinct nodes, and only paths of the graph between them. The random draws
of a request (the holding time, the source label and the target label) are
parameters of `Reset` and `Step`.

## Model

| member | source | states |
|---|---|---|
| Topology.IndexLabels | src/net_env.py:15-27 | Numbering the node or edge labels in iteration order gives every listed label its position. The keys are exactly the labels listed. Every id is below the number of labels and leads back to its label, so the index is a bijection onto 0..n−1. |
| Topology.IndexBijective | src/net_env.py:15-27 | An index built this way is injective, and its ids lie below the number of labels. |
| Catalogue.ToEdgePath | src/net_env.py:66-80 | A node path of k nodes becomes k−1 edge ids. Id x is the id of (p[x], p[x+1]) when that orientation is a key of the edge index, and otherwise the id of (p[x+1], p[x]). |
| Catalogue.CatalogueEntry | src/net_env.py:54-80 | An entry always has exactly 3 routes. Route i converts the i-th path found when there is one. Otherwise it is a copy of route 0, which converts the first path found. |
| Catalogue.PadCandidates | src/net_env.py:54-60 | Padding yields exactly 3 paths: the i-th path found for i below the number found, and the first path found after that. |
| Catalogue.BuildEntry | src/net_env.py:51-80 | Padding and then converting each of the 3 candidates yields the catalogue entry of the paths found. |
| Catalogue.FillCell | src/net_env.py:47-80 | One visit of the inner loop, for source i and target j, stores the entry of (i, j) when i < j. For j ≤ i the reverse pair is already stored, or the nodes coincide, and it stores nothing. Either way the keys are afterwards exactly the ones due up to (i, j). |
| Catalogue.FillRow | src/net_env.py:46-80 | One pass of the inner loop with source i adds exactly the keys (i, b) with i < b to the keys from earlier sources. The reverse check skips every b ≤ i. Each stored entry is the one built from the search between the i-th and the b-th node. |
| Catalogue.BuildCatalogue | src/net_env.py:43-80 | The catalogue's keys are exactly the pairs (a, b) with a < b < N, so every unordered pair is stored once, in one orientation. Each key holds the entry built from the search between the a-th and the b-th node. |
| Catalogue.BuiltCatalogueOk | src/net_env.py:43-80 | The catalogue built is well formed: every key holds 3 routes, and each route is non-empty and uses only edge ids below E. |
| Catalogue.EdgePathDistinct | src/net_env.py:66-80 | Converting a path without repeated nodes, under an injective edge index, gives a route without repeated edge ids. |
| Catalogue.EntryRoutesDistinct | src/net_env.py:54-80 | When the search returns simple paths, no route of an entry crosses the same edge twice. |
| LinkState.Decay | src/net_env.py:129-133 | Decay keeps the shape of the matrix. It lowers every positive slot by exactly one and leaves every other slot as it was. |
| LinkState.DecayBounded | src/net_env.py:129-133 | Decay keeps every slot within [0, bound) and keeps the matrix well shaped. |
| LinkState.DecayNAt | src/net_env.py:129-133 | After n rounds of decay, a slot that held h ≥ 0 holds max(h − n, 0). It frees exactly at round h. |
| LinkState.Used | src/net_env.py:157-161 | A row's occupied count is at most its length. |
| LinkState.UsedFull | src/net_env.py:157-161 | The occupied count equals the row's length exactly when every slot is positive. |
| LinkState.UsedUpdate | src/net_env.py:157-173 | Writing a positive holding time into a free slot raises the occupied count by exactly one. |
| LinkState.FirstFree | src/net_env.py:169-173 | When a free slot exists, the result is the lowest-index free slot. Otherwise there is no result. |
| LinkState.RoomIffFree | src/net_env.py:157-163 | For a row without negative slots, "occupied + 1 ≤ 10" holds exactly when the row has a free slot. So the scan in the admission loop finds a slot on every link of a route the feasibility test accepts. |
| LinkState.FeasibleIffFree | src/net_env.py:150-163 | On a well-shaped, non-negative matrix, a route passes the feasibility test exactly when each of its links has a free slot. |
| LinkState.Feasible | src/net_env.py:150-163 | The feasibility test: every link of the route would hold at most 10 occupied slots after taking one more request. Its meaning is pinned down by FeasibleIffFree. |
| LinkState.AdmitRow | src/net_env.py:168-173 | On one link, the first free slot takes the holding time and a full link is left alone; the row keeps its length. AdmitRowEffect states what changes. |
| LinkState.AdmitOne | src/net_env.py:166-173 | Admission on link e of the matrix: link e becomes AdmitRow of itself, and the matrix keeps its shape. |
| LinkState.AdmitPath | src/net_env.py:166-173 | In route order, each occurrence of a link gives its first free slot to the holding time, and a full link is left alone; the matrix keeps its shape. AdmitPathAt, AdmitPathBounded and AdmissionEffect state its effect. |
| LinkState.AdmitRowEffect | src/net_env.py:166-173 | Admitting on a row with a free slot changes only its lowest free slot, to the holding time, and raises its occupied count by one. |
| LinkState.AdmitPathAt | src/net_env.py:166-173 | Along a route of distinct links, every link of the route is admitted once and every other link is unchanged. |
| LinkState.AdmitPathBounded | src/net_env.py:166-173 | Admission with a holding time in [0, bound) keeps every slot in [0, bound). |
| LinkState.AdmissionEffect | src/net_env.py:150-175 | Admitting a feasible request along a route of distinct links has three effects. Each route link's lowest free slot takes the holding time. Each route link's occupied count rises by exactly one. No link off the route changes. |
| LinkStore.DecayInPlace | src/net_env.py:129-133 | The in-place decrement loop leaves the matrix equal to Decay of its old value. |
| LinkStore.Occupied | src/net_env.py:158-161 | The counting loop returns Used of the link's row. |
| LinkStore.AdmitInPlace | src/net_env.py:168-173 | The scan-and-write loop leaves the matrix equal to AdmitOne of its old value. That is, the link's first free slot takes the holding time, a full link is unchanged, and no other link changes. |
| Admissions.StaircaseRound | src/net_env.py:128-179 | Take a route of distinct links that has taken one request of holding time h ≥ 10 in each of the last k < 10 rounds. After the next decay, the route still passes the feasibility test. The admission then extends each link's occupied prefix by one slot. |
| Admissions.FullStaircaseRound | src/net_env.py:128-179 | After 10 such rounds, the 11th round's decay leaves the route feasible exactly when h == 10. |
| Env.NetworkEnv.constructor | src/net_env.py:9-80 | Construction establishes the invariant, with no episode started and round 0. The edge index is an index of the edge list. The catalogue's keys are exactly the pairs a < b, and each entry is the one built from the search. |
| Env.NetworkEnv.GenerateReq | src/net_env.py:82-103 | A request names two distinct nodes and has a holding time in [10, 20). Its ids lead back to the labels drawn. |
| Env.NetworkEnv.Obs | src/net_env.py:105-109 | The observation lies in the observation space declared at src/net_env.py:29-36: an E × 10 matrix with cells in [0, 20], and [source, target, holding] within [0, N−1] × [0, N−1] × [10, 20]. |
| Env.NetworkEnv.Route | src/net_env.py:145-156 | Looking up (s, t), and (t, s) when (s, t) is absent, finds the entry under (min, max). The candidate route found is non-empty, with edge ids below E. |
| Env.NetworkEnv.Reset | src/net_env.py:111-126 | After reset, every slot is free, round and blocks are 0, and the live request is the one generated from the draws. The observation is the new state. The invariant holds. |
| Env.NetworkEnv.UsedAfterAdmission | src/net_env.py:150-162 | For every link of the route, in order, the count is the link's occupied slots plus one. |
| Env.NetworkEnv.Commit | src/net_env.py:163-173 | Routing along a route leaves the matrix equal to AdmitPath of its old value. |
| Env.NetworkEnv.Served | src/net_env.py:150-179 | The outcome of serving a request: the block action leaves the links alone, gives −1 and one block; a candidate route that is feasible is admitted along (AdmitPath), giving the holding time and no block; an infeasible route leaves the links alone, gives −1 and one block. |
| Env.NetworkEnv.Serve | src/net_env.py:138-179 | The outcome is the one `Served` describes. The block action, or a route some link of which would exceed 10 used slots, leaves the matrix unchanged and counts one block with reward −1. Otherwise the request is admitted along the route (AdmitPath), the reward is its holding time and blocks is unchanged. The live request stays the same, and the invariant holds. |
| Env.NetworkEnv.Advance | src/net_env.py:129-135 | Opening a round leaves the matrix equal to Decay of its old value. The round counter goes up by one, and the invariant holds. |
| Env.NetworkEnv.Step | src/net_env.py:128-185 | Step gives the new state in terms of the old one, via `Served` applied to the decayed matrix and the old request. The matrix is Decay of the old one, followed by admission along the chosen route exactly when that route is feasible on the decayed matrix. The round goes up by one, and the episode is `terminated` exactly when the round reaches 100. `truncated` is always false. The reward is the holding time on admission and −1 on a block, and blocks goes up by one exactly on a block. The next request is the one generated from the draws, and the observation is the new state. The invariant is preserved. |

## Left out

- Gym plumbing is not modelled: the `gym.Env` base class, `super().reset(seed=...)`, the `info` dictionaries and the objects for the observation and action spaces. The observation space appears only as the predicate `InObservationSpace`, and the action space as the precondition `action <= 3`.
- The disjoint-path search (`nx.edge_disjoint_paths` with cutoff 3) is a library call. It is an input function constrained by `SearchOk`. With no path for a pair, the source fails with an IndexError; the model requires at least one path instead.
- Randomness: the draws of `np.random.randint` and `random.choice` are parameters. The retry loop that redraws the target while it equals the source becomes the precondition `s != t`. On a one-node graph that loop never ends.
- The commented-out fixed request ("case 1") is dead code in the source and is not modelled.
- Observation aliasing: the source's observation holds a reference to the live numpy matrix, so later steps change it. `Obs` returns a value snapshot instead.
- Step before reset: in the source, calling `step` before `reset` fails on a missing attribute. The model's `ready` flag and the `ready` precondition of `Step` stand for this. The constructor allocates a zero matrix and a placeholder request that the source creates only in `reset`.
- Integer widths: numpy's int64 slots stay within [0, 20), so no wrap-around arises. `round` and `blocks` are Python integers and are unbounded here too.
- `self.g` itself is not stored. Only its node labels (for drawing requests) and its edge count are kept.
- Catalogue.EntryRoutesDistinct: the guarantee that three disjoint paths give three distinct routes is not proved. It depends on what the search returns. Only "no route repeats an edge, for simple paths" is proved.
- LinkState.AdmissionEffect: stated only for routes without repeated edge ids. For other routes, `AdmitPath` follows the source's loop, which admits once per occurrence of an edge.
- Env.NetworkEnv.Step: there is no lemma for the running total of rewards over an episode. It follows from the per-step postcondition.
- LinkStore.AdmitInPlace ends its scan with a `return` where the source uses `break`. Nothing follows the loop in either, so the behaviour is the same.
- The end-to-end scenario of ten admissions followed by an infeasible eleventh holds in the source only when the first admitted request's holding time is above 10. `step` decays all slots before serving, so by round 11 only the slot of the first admission can be free again, and it is free exactly when that holding time is 10. `Admissions.FullStaircaseRound` states this for one holding time h throughout: the eleventh is feasible exactly when h == 10.
- The runner scripts (DQN and PPO training) and the graph files are not part of this model.
