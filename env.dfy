/**
 * The simulation engine: a routing-and-wavelength-assignment environment
 * whose episode is a sequence of rounds.  Each round decays the holding
 * times, routes the live request along the candidate route the caller
 * chose (or blocks it), and draws the next request.
 *
 * The random draws of a request (holding time, source and target labels)
 * are parameters of Reset and Step.
 */
module Env {
  import opened Topology
  import opened Catalogue
  import opened LinkState
  import opened LinkStore

  /** Rounds per episode. */
  const Rounds: int := 100
  /** The action that blocks the request instead of routing it. */
  const BlockAction: nat := 3
  /** Holding times are drawn from [MinHolding, MaxHolding). */
  const MinHolding: int := 10
  const MaxHolding: int := 20
  /** Largest value the declared observation space admits for a slot and
      for the holding time of the request. */
  const ObsMax: int := 20

  datatype Request = Request(source: nat, target: nat, holding: int)

  datatype Observation = Observation(links: LinkStates, req: Request)

  /** A request between two distinct nodes of n, with a holding time in range. */
  ghost predicate RequestOk(r: Request, n: nat) {
    r.source < n && r.target < n && r.source != r.target && MinHolding <= r.holding < MaxHolding
  }

  /** The declared observation space: an e x W matrix with cells in
      [0, ObsMax], and [source, target, holding] within [0, n - 1] x
      [0, n - 1] x [MinHolding, ObsMax]. */
  ghost predicate InObservationSpace(o: Observation, n: nat, e: nat) {
    && |o.links| == e && WellShaped(o.links)
    && (forall x, i :: 0 <= x < e && 0 <= i < W ==> 0 <= o.links[x][i] <= ObsMax)
    && o.req.source <= n - 1 && o.req.target <= n - 1
    && MinHolding <= o.req.holding <= ObsMax
  }

  class NetworkEnv<L(==)> {
    /** The node labels in the graph's iteration order. */
    const nodes: seq<L>
    const nodeId: map<L, nat>
    const edgeId: map<(L, L), nat>
    const numEdges: nat
    /** The path catalogue. */
    const paths: map<Key, seq<EdgePath>>

    var linkStates: array2<int>
    var round: int
    var blocks: int
    var req: Request
    /** Whether Reset has been called: before it there is no link state
        nor request to step on. */
    var ready: bool

    /** What construction establishes once and for all. */
    ghost predicate Static() {
      NoDup(nodes) && IsIndex(nodeId, nodes) && CatalogueOk(paths, |nodes|, numEdges)
    }

    ghost predicate Valid()
      reads this, linkStates
    {
      && Static()
      && linkStates.Length0 == numEdges && linkStates.Length1 == W
      && Bounded(Links(), MaxHolding)
      && (ready ==> RequestOk(req, |nodes|))
    }

    function Links(): LinkStates
      reads this`linkStates, linkStates
    {
      Snapshot(linkStates)
    }

    /** A valid draw for a request: a holding time in range and two
        distinct node labels of the graph. */
    ghost predicate DrawOk(ht: int, s: L, t: L) {
      MinHolding <= ht < MaxHolding && s in nodes && t in nodes && s != t
    }

    /** Indexes nodes and edges, then fills the path catalogue from the
        results of the disjoint-path search. */
    constructor (g: seq<L>, edges: seq<(L, L)>, search: (L, L) -> seq<seq<L>>)
      requires GraphOk(g, edges)
      requires SearchOk(g, (set e | e in edges), search)
      ensures Valid() && !ready && round == 0
      ensures nodes == g && numEdges == |edges|
      ensures IsIndex(edgeId, edges)
      ensures forall k :: k in paths <==> k.0 < k.1 < |nodes|
      ensures forall k :: k in paths ==> paths[k] == EntryFor(nodes, edgeId, search, k)
    {
      var n := IndexLabels(g);
      var m := IndexLabels(edges);
      var p := BuildCatalogue(g, n, m, search);
      BuiltCatalogueOk(g, m, search, p, |edges|);
      nodes := g;
      numEdges := |edges|;
      nodeId := n;
      edgeId := m;
      paths := p;
      round := 0;
      blocks := 0;
      ready := false;
      req := Request(0, 0, MinHolding);
      linkStates := new int[|edges|, W]((e, i) => 0);
    }

    /** A request from the draws: the ids of the two labels and the holding
        time.  It names two distinct nodes, and the ids lead back to the
        labels drawn. */
    function GenerateReq(ht: int, s: L, t: L): (r: Request)
      requires Static() && DrawOk(ht, s, t)
      ensures RequestOk(r, |nodes|)
      ensures nodes[r.source] == s && nodes[r.target] == t && r.holding == ht
    {
      Request(nodeId[s], nodeId[t], ht)
    }

    /** The observation: the link states and the live request.  It lies in
        the declared observation space. */
    function Obs(): (o: Observation)
      reads this, linkStates
      requires Valid() && ready
      ensures InObservationSpace(o, |nodes|, numEdges)
    {
      Observation(Links(), req)
    }

    /** The candidate route numbered `action` for the pair (s, t), looked up
        under (s, t) and, when that key is absent, under (t, s).  That is
        the entry stored under the ordered pair (min, max). */
    function Route(s: nat, t: nat, action: nat): (r: EdgePath)
      requires Static() && s < |nodes| && t < |nodes| && s != t && action < Choices
      ensures r == paths[if s < t then (s, t) else (t, s)][action]
      ensures |r| >= 1 && forall x :: 0 <= x < |r| ==> r[x] < numEdges
    {
      var key := if (s, t) in paths then (s, t) else (t, s);
      paths[key][action]
    }

    /** Starts an episode: all slots free, counters at zero, a fresh request. */
    method Reset(ht: int, s: L, t: L) returns (obs: Observation)
      requires Valid() && DrawOk(ht, s, t)
      modifies this
      ensures Valid() && ready && fresh(linkStates)
      ensures Links() == Zeros(numEdges)
      ensures round == 0 && blocks == 0
      ensures req == GenerateReq(ht, s, t)
      ensures obs == Observation(Links(), req)
    {
      req := GenerateReq(ht, s, t);
      ready := true;
      round := 0;
      blocks := 0;
      linkStates := new int[numEdges, W]((e, i) => 0);
      SameLinkStates(Links(), Zeros(numEdges));
      obs := Obs();
    }

    /** For each link of the route in order, the number of slots it would
        use after taking one more request. */
    method UsedAfterAdmission(route: EdgePath) returns (counts: seq<int>)
      requires forall x :: 0 <= x < |route| ==> route[x] < linkStates.Length0
      ensures |counts| == |route|
      ensures forall k :: 0 <= k < |route| ==> counts[k] == Used(Links()[route[k]]) + 1
    {
      counts := [];
      for k := 0 to |route|
        invariant |counts| == k
        invariant forall y :: 0 <= y < k ==> counts[y] == Used(Links()[route[y]]) + 1
      {
        var curr := Occupied(linkStates, route[k]);
        counts := counts + [curr + 1];
      }
    }

    /** Gives every link of the route, in order, its first free slot. */
    method Commit(route: EdgePath, ht: int)
      requires forall x :: 0 <= x < |route| ==> route[x] < linkStates.Length0
      modifies linkStates
      ensures Links() == AdmitPath(old(Links()), route, ht)
    {
      ghost var before := Links();
      for k := 0 to |route|
        invariant Links() == AdmitPath(before, route[..k], ht)
      {
        assert route[..k + 1][..k] == route[..k];
        AdmitInPlace(linkStates, route[k], ht);
      }
      assert route[..|route|] == route;
    }

    /** The outcome of serving request r with `action` on link states L:
        the new link states L', the reward, and how many blocks it counts.
        The request is routed along candidate `action` if every link of
        that route has room for one more request; otherwise, and whenever
        the action blocks, it counts one block and leaves the links alone. */
    ghost predicate Served(L: LinkStates, r: Request, action: nat, L': LinkStates, reward: int, blocked: int)
      requires Static() && RequestOk(r, |nodes|) && action <= BlockAction && |L| == numEdges
    {
      if action == BlockAction then
        L' == L && reward == -1 && blocked == 1
      else
        var route := Route(r.source, r.target, action);
        if Feasible(L, route) then
          L' == AdmitPath(L, route, r.holding) && reward == r.holding && blocked == 0
        else
          L' == L && reward == -1 && blocked == 1
    }

    /** Serves the live request on the current link states. */
    method Serve(action: nat) returns (reward: int)
      requires Valid() && ready && action <= BlockAction
      modifies this`blocks, linkStates
      ensures Valid()
      ensures Served(old(Links()), req, action, Links(), reward, blocks - old(blocks))
    {
      var src, dst, h := req.source, req.target, req.holding;
      var route: EdgePath := [];
      var numUsed: seq<int> := [];
      if action != BlockAction {
        route := Route(src, dst, action);
        numUsed := UsedAfterAdmission(route);
      }
      if action != BlockAction && forall k :: 0 <= k < |numUsed| ==> numUsed[k] <= W {
        AdmitPathBounded(Links(), route, h, MaxHolding);
        Commit(route, h);
        reward := h;
      } else {
        blocks := blocks + 1;
        reward := -1;
      }
    }

    /** Opens a round: every holding time decays and the round counter
        advances. */
    method Advance()
      requires Valid() && ready
      modifies this`round, linkStates
      ensures Valid() && ready
      ensures Links() == Decay(old(Links())) && round == old(round) + 1
    {
      ghost var before := Links();
      DecayInPlace(linkStates);
      DecayBounded(before, MaxHolding);
      round := round + 1;
    }

    /** One round: decay every holding time, advance the round counter
        (the episode ends when it reaches Rounds), serve the live request on
        the decayed link states, and draw the next one. */
    method Step(action: nat, ht: int, s: L, t: L)
      returns (obs: Observation, reward: int, terminated: bool, truncated: bool)
      requires Valid() && ready && action <= BlockAction && DrawOk(ht, s, t)
      modifies this, linkStates
      ensures Valid() && ready && linkStates == old(linkStates)
      ensures round == old(round) + 1 && terminated == (round == Rounds) && !truncated
      ensures Served(Decay(old(Links())), old(req), action, Links(), reward, blocks - old(blocks))
      ensures req == GenerateReq(ht, s, t) && obs == Observation(Links(), req)
    {
      Advance();
      terminated := round == Rounds;
      reward := Serve(action);
      ghost var served := Links();
      req := GenerateReq(ht, s, t);
      assert Links() == served;
      obs := Obs();
      truncated := false;
    }
  }
}
