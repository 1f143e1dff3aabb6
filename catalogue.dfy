/**
 * The path catalogue: for every unordered pair of distinct nodes, stored
 * under one orientation only, exactly three candidate routes given as
 * sequences of edge ids.  The disjoint-path search of the graph library is
 * an input: a function from a node pair to the paths it found, as node
 * sequences.
 */
module Catalogue {
  import opened Topology

  /** Number of candidate routes per node pair. */
  const Choices: nat := 3

  type EdgePath = seq<nat>
  type Key = (nat, nat)

  /** Every consecutive pair of p is an edge, in one orientation or the other. */
  ghost predicate Walks<L>(p: seq<L>, edges: set<(L, L)>) {
    forall x :: 0 <= x < |p| - 1 ==> (p[x], p[x + 1]) in edges || (p[x + 1], p[x]) in edges
  }

  /** p is a path of the graph from s to t. */
  ghost predicate IsWalk<L>(p: seq<L>, s: L, t: L, edges: set<(L, L)>) {
    |p| >= 2 && p[0] == s && p[|p| - 1] == t && Walks(p, edges)
  }

  /** What the disjoint-path search delivers for every pair of distinct
      nodes: at least one path, and only paths of the graph between them. */
  ghost predicate SearchOk<L>(nodes: seq<L>, edges: set<(L, L)>, search: (L, L) -> seq<seq<L>>) {
    forall i, j {:trigger search(nodes[i], nodes[j])} ::
      0 <= i < |nodes| && 0 <= j < |nodes| && nodes[i] != nodes[j] ==>
      var found := search(nodes[i], nodes[j]);
      && |found| >= 1
      && forall k :: 0 <= k < |found| ==> IsWalk(found[k], nodes[i], nodes[j], edges)
  }

  /** The id of the edge joining a and b, looked up as (a, b) first and as
      (b, a) when (a, b) is not a key. */
  function EdgeIdOf<L(==)>(edgeId: map<(L, L), nat>, a: L, b: L): nat
    requires (a, b) in edgeId || (b, a) in edgeId
  {
    if (a, b) in edgeId then edgeId[(a, b)] else edgeId[(b, a)]
  }

  /** A node path as the sequence of ids of the edges it crosses. */
  function EdgePathOf<L(==)>(p: seq<L>, edgeId: map<(L, L), nat>): (r: EdgePath)
    requires Walks(p, edgeId.Keys)
    ensures |r| == if |p| == 0 then 0 else |p| - 1
    ensures forall x :: 0 <= x < |r| ==> r[x] in edgeId.Values
  {
    if |p| <= 1 then []
    else seq(|p| - 1, x requires 0 <= x < |p| - 1 => EdgeIdOf(edgeId, p[x], p[x + 1]))
  }

  /** Converts a node path to edge ids, one consecutive node pair at a time. */
  method ToEdgePath<L(==)>(p: seq<L>, edgeId: map<(L, L), nat>) returns (r: EdgePath)
    requires Walks(p, edgeId.Keys)
    ensures |r| == if |p| == 0 then 0 else |p| - 1
    ensures forall x :: 0 <= x < |r| ==>
      r[x] == if (p[x], p[x + 1]) in edgeId then edgeId[(p[x], p[x + 1])] else edgeId[(p[x + 1], p[x])]
    ensures r == EdgePathOf(p, edgeId)
  {
    r := [];
    var x := 0;
    while x + 1 < |p|
      invariant x == 0 || x < |p|
      invariant |r| == x
      invariant forall y :: 0 <= y < x ==> r[y] == EdgeIdOf(edgeId, p[y], p[y + 1])
    {
      var a, b := p[x], p[x + 1];
      var ab := (a, b);
      if ab !in edgeId {
        ab := (b, a);
      }
      r := r + [edgeId[ab]];
      x := x + 1;
    }
  }

  /** The first three paths found, the missing ones filled with copies of
      the first path. */
  function Candidates<L>(found: seq<seq<L>>): (r: seq<seq<L>>)
    requires |found| >= 1
    ensures |r| == Choices
    ensures forall i :: 0 <= i < Choices ==> r[i] == if i < |found| then found[i] else found[0]
  {
    seq(Choices, i requires 0 <= i < Choices => if i < |found| then found[i] else found[0])
  }

  /** The catalogue entry of a node pair for which the search found `found`. */
  function CatalogueEntry<L(==)>(found: seq<seq<L>>, edgeId: map<(L, L), nat>): (entry: seq<EdgePath>)
    requires |found| >= 1
    requires forall k :: 0 <= k < |found| ==> Walks(found[k], edgeId.Keys)
    ensures |entry| == Choices
    ensures entry[0] == EdgePathOf(found[0], edgeId)
    ensures forall i :: 0 <= i < Choices && i < |found| ==> entry[i] == EdgePathOf(found[i], edgeId)
    ensures forall i :: |found| <= i < Choices ==> entry[i] == entry[0]
  {
    var c := Candidates(found);
    seq(Choices, i requires 0 <= i < Choices => EdgePathOf(c[i], edgeId))
  }

  /** Pads the paths found to exactly three, one append per candidate. */
  method PadCandidates<L>(found: seq<seq<L>>) returns (r: seq<seq<L>>)
    requires |found| >= 1
    ensures r == Candidates(found)
  {
    r := [];
    for i := 0 to Choices
      invariant |r| == i
      invariant forall j :: 0 <= j < i ==> r[j] == if j < |found| then found[j] else found[0]
    {
      if i >= |found| {
        r := r + [found[0]];
      } else {
        r := r + [found[i]];
      }
    }
  }

  /** Builds one catalogue entry: pad the paths found, then convert each of
      the three to edge ids. */
  method BuildEntry<L(==)>(found: seq<seq<L>>, edgeId: map<(L, L), nat>) returns (entry: seq<EdgePath>)
    requires |found| >= 1
    requires forall k :: 0 <= k < |found| ==> Walks(found[k], edgeId.Keys)
    ensures entry == CatalogueEntry(found, edgeId)
  {
    var prev := PadCandidates(found);
    entry := [];
    for i := 0 to Choices
      invariant |entry| == i
      invariant forall j :: 0 <= j < i ==> entry[j] == EdgePathOf(prev[j], edgeId)
    {
      var p := prev[i];
      var newPath := ToEdgePath(p, edgeId);
      entry := entry + [newPath];
    }
  }

  /** A catalogue over n nodes and e edges: keys are exactly the pairs
      (a, b) with a < b < n (so never both orientations of a pair), and each
      holds three non-empty routes over edge ids below e. */
  ghost predicate CatalogueOk(paths: map<Key, seq<EdgePath>>, n: nat, e: nat) {
    && (forall k :: k in paths <==> k.0 < k.1 < n)
    && (forall k :: k in paths ==> |paths[k]| == Choices)
    && (forall k, c :: k in paths && 0 <= c < Choices ==> |paths[k][c]| >= 1)
    && (forall k, c, x :: k in paths && 0 <= c < Choices && 0 <= x < |paths[k][c]| ==> paths[k][c][x] < e)
  }

  /** What the search delivers for the node pair at positions i and j. */
  lemma SearchAt<L>(nodes: seq<L>, edges: set<(L, L)>, search: (L, L) -> seq<seq<L>>, i: nat, j: nat)
    requires SearchOk(nodes, edges, search)
    requires i < |nodes| && j < |nodes| && nodes[i] != nodes[j]
    ensures |search(nodes[i], nodes[j])| >= 1
    ensures forall k :: 0 <= k < |search(nodes[i], nodes[j])| ==>
      IsWalk(search(nodes[i], nodes[j])[k], nodes[i], nodes[j], edges)
  {
  }

  /** The entry the catalogue holds under key k: built from what the search
      found between the k.0-th and the k.1-th node. */
  ghost function EntryFor<L>(nodes: seq<L>, edgeId: map<(L, L), nat>, search: (L, L) -> seq<seq<L>>, k: Key)
    : seq<EdgePath>
    requires NoDup(nodes) && SearchOk(nodes, edgeId.Keys, search)
    requires k.0 < k.1 < |nodes|
  {
    SearchAt(nodes, edgeId.Keys, search, k.0, k.1);
    CatalogueEntry(search(nodes[k.0], nodes[k.1]), edgeId)
  }

  /** The keys stored once the sources before i, and the targets before j
      of source i, have been visited. */
  ghost predicate FilledUpTo<L>(nodes: seq<L>, edgeId: map<(L, L), nat>, search: (L, L) -> seq<seq<L>>,
                                paths: map<Key, seq<EdgePath>>, i: nat, j: nat)
    requires NoDup(nodes) && SearchOk(nodes, edgeId.Keys, search)
  {
    && (forall k :: k in paths <==> k.0 < k.1 < |nodes| && (k.0 < i || (k.0 == i && k.1 < j)))
    && (forall k :: k in paths ==> k.0 < k.1 < |nodes| && paths[k] == EntryFor(nodes, edgeId, search, k))
  }

  /** One step of the inner loop, for source i and target j: an entry is
      stored under (id s, id t) when the two nodes differ and the reverse
      pair is not stored yet.  That adds exactly the pair (i, j) when i < j. */
  method FillCell<L(==)>(nodes: seq<L>, nodeId: map<L, nat>, edgeId: map<(L, L), nat>,
                         search: (L, L) -> seq<seq<L>>, i: nat, j: nat, paths0: map<Key, seq<EdgePath>>)
    returns (paths: map<Key, seq<EdgePath>>)
    requires NoDup(nodes) && IsIndex(nodeId, nodes)
    requires SearchOk(nodes, edgeId.Keys, search)
    requires i < |nodes| && j < |nodes|
    requires FilledUpTo(nodes, edgeId, search, paths0, i, j)
    ensures FilledUpTo(nodes, edgeId, search, paths, i, j + 1)
  {
    paths := paths0;
    var s, t := nodes[i], nodes[j];
    assert nodeId[s] == i && nodeId[t] == j;
    assert (j, i) in paths <==> j < i;
    if s != t && (nodeId[t], nodeId[s]) !in paths {
      var sNum, tNum := nodeId[s], nodeId[t];
      SearchAt(nodes, edgeId.Keys, search, i, j);
      var entry := BuildEntry(search(s, t), edgeId);
      paths := paths[(sNum, tNum) := entry];
      FilledAdd(nodes, edgeId, search, paths0, i, j);
    } else {
      FilledKeep(nodes, edgeId, search, paths0, i, j);
    }
  }

  /** Visiting target j > i stores the entry of (i, j), the next key. */
  lemma FilledAdd<L>(nodes: seq<L>, edgeId: map<(L, L), nat>, search: (L, L) -> seq<seq<L>>,
                     paths0: map<Key, seq<EdgePath>>, i: nat, j: nat)
    requires NoDup(nodes) && SearchOk(nodes, edgeId.Keys, search)
    requires i < j < |nodes| && FilledUpTo(nodes, edgeId, search, paths0, i, j)
    ensures FilledUpTo(nodes, edgeId, search, paths0[(i, j) := EntryFor(nodes, edgeId, search, (i, j))], i, j + 1)
  {
  }

  /** Visiting a target j <= i stores nothing, and none is due. */
  lemma FilledKeep<L>(nodes: seq<L>, edgeId: map<(L, L), nat>, search: (L, L) -> seq<seq<L>>,
                      paths0: map<Key, seq<EdgePath>>, i: nat, j: nat)
    requires NoDup(nodes) && SearchOk(nodes, edgeId.Keys, search)
    requires j <= i < |nodes| && FilledUpTo(nodes, edgeId, search, paths0, i, j)
    ensures FilledUpTo(nodes, edgeId, search, paths0, i, j + 1)
  {
  }

  /** One pass of the inner loop: the node at position i is the source,
      every node in turn the target.  Given the pairs of the earlier
      sources, this adds exactly the pairs (i, b) with i < b. */
  method FillRow<L(==)>(nodes: seq<L>, nodeId: map<L, nat>, edgeId: map<(L, L), nat>,
                        search: (L, L) -> seq<seq<L>>, i: nat, paths0: map<Key, seq<EdgePath>>)
    returns (paths: map<Key, seq<EdgePath>>)
    requires NoDup(nodes) && IsIndex(nodeId, nodes)
    requires SearchOk(nodes, edgeId.Keys, search)
    requires i < |nodes|
    requires forall k :: k in paths0 <==> k.0 < k.1 < |nodes| && k.0 < i
    requires forall k :: k in paths0 ==> k.0 < k.1 < |nodes| && paths0[k] == EntryFor(nodes, edgeId, search, k)
    ensures forall k :: k in paths <==> k.0 < k.1 < |nodes| && k.0 <= i
    ensures forall k :: k in paths ==> k.0 < k.1 < |nodes| && paths[k] == EntryFor(nodes, edgeId, search, k)
  {
    paths := paths0;
    for j := 0 to |nodes|
      invariant FilledUpTo(nodes, edgeId, search, paths, i, j)
    {
      paths := FillCell(nodes, nodeId, edgeId, search, i, j, paths);
    }
  }

  /** Fills the catalogue, source by source over the nodes in order.  In
      iteration order the reverse check skips (a, b) exactly when a > b, so
      the keys are the pairs (a, b) with a < b, each holding the padded,
      converted result of the search from the a-th to the b-th node. */
  method BuildCatalogue<L(==)>(nodes: seq<L>, nodeId: map<L, nat>, edgeId: map<(L, L), nat>,
                               search: (L, L) -> seq<seq<L>>)
    returns (paths: map<Key, seq<EdgePath>>)
    requires NoDup(nodes) && IsIndex(nodeId, nodes)
    requires SearchOk(nodes, edgeId.Keys, search)
    ensures forall k :: k in paths <==> k.0 < k.1 < |nodes|
    ensures forall k :: k in paths ==> k.0 < k.1 < |nodes| && paths[k] == EntryFor(nodes, edgeId, search, k)
  {
    paths := map[];
    for i := 0 to |nodes|
      invariant forall k :: k in paths <==> k.0 < k.1 < |nodes| && k.0 < i
      invariant forall k :: k in paths ==> k.0 < k.1 < |nodes| && paths[k] == EntryFor(nodes, edgeId, search, k)
    {
      paths := FillRow(nodes, nodeId, edgeId, search, i, paths);
    }
  }

  /** A route of an entry is non-empty and uses only ids the edge index
      hands out, when every path found has at least two nodes. */
  lemma EntryRouteOk<L>(found: seq<seq<L>>, edgeId: map<(L, L), nat>, c: nat, e: nat)
    requires |found| >= 1 && c < Choices
    requires forall k :: 0 <= k < |found| ==> |found[k]| >= 2 && Walks(found[k], edgeId.Keys)
    requires forall u :: u in edgeId ==> edgeId[u] < e
    ensures |CatalogueEntry(found, edgeId)[c]| >= 1
    ensures forall x :: 0 <= x < |CatalogueEntry(found, edgeId)[c]| ==> CatalogueEntry(found, edgeId)[c][x] < e
  {
    var p := Candidates(found)[c];
    assert |p| >= 2;
    var r := CatalogueEntry(found, edgeId)[c];
    assert r == EdgePathOf(p, edgeId);
    forall x | 0 <= x < |r| ensures r[x] < e {
      assert r[x] in edgeId.Values;
    }
  }

  /** The catalogue BuildCatalogue fills is well formed: every stored route
      is non-empty, since every path found has at least two nodes, and uses
      only ids the edge index hands out. */
  lemma BuiltCatalogueOk<L>(nodes: seq<L>, edgeId: map<(L, L), nat>, search: (L, L) -> seq<seq<L>>,
                            paths: map<Key, seq<EdgePath>>, e: nat)
    requires NoDup(nodes) && SearchOk(nodes, edgeId.Keys, search)
    requires forall u :: u in edgeId ==> edgeId[u] < e
    requires forall k :: k in paths <==> k.0 < k.1 < |nodes|
    requires forall k :: k in paths ==> k.0 < k.1 < |nodes| && paths[k] == EntryFor(nodes, edgeId, search, k)
    ensures CatalogueOk(paths, |nodes|, e)
  {
    forall k, c | k in paths && 0 <= c < Choices
      ensures |paths[k][c]| >= 1
      ensures forall x :: 0 <= x < |paths[k][c]| ==> paths[k][c][x] < e
    {
      StoredRouteOk(nodes, edgeId, search, k, c, e);
    }
  }

  /** Route c of the entry stored under k is non-empty, with ids below e. */
  lemma StoredRouteOk<L>(nodes: seq<L>, edgeId: map<(L, L), nat>, search: (L, L) -> seq<seq<L>>,
                         k: Key, c: nat, e: nat)
    requires NoDup(nodes) && SearchOk(nodes, edgeId.Keys, search)
    requires forall u :: u in edgeId ==> edgeId[u] < e
    requires k.0 < k.1 < |nodes| && c < Choices
    ensures |EntryFor(nodes, edgeId, search, k)[c]| >= 1
    ensures forall x :: 0 <= x < |EntryFor(nodes, edgeId, search, k)[c]| ==> EntryFor(nodes, edgeId, search, k)[c][x] < e
  {
    SearchAt(nodes, edgeId.Keys, search, k.0, k.1);
    EntryRouteOk(search(nodes[k.0], nodes[k.1]), edgeId, c, e);
  }

  /** Entry x of a converted path is the id of the x-th node pair. */
  lemma EdgePathAt<L>(p: seq<L>, edgeId: map<(L, L), nat>, x: nat)
    requires Walks(p, edgeId.Keys) && x + 1 < |p|
    ensures EdgePathOf(p, edgeId)[x] == EdgeIdOf(edgeId, p[x], p[x + 1])
  {
  }

  /** Two node pairs that share no position-wise endpoint, nor the first of
      one with the second of the other, are different edges. */
  lemma DistinctEdgeIds<L>(edgeId: map<(L, L), nat>, a: L, b: L, c: L, d: L)
    requires (a, b) in edgeId || (b, a) in edgeId
    requires (c, d) in edgeId || (d, c) in edgeId
    requires a != c && a != d && b != d
    requires forall u, v :: u in edgeId && v in edgeId && edgeId[u] == edgeId[v] ==> u == v
    ensures EdgeIdOf(edgeId, a, b) != EdgeIdOf(edgeId, c, d)
  {
  }

  /** Distinct consecutive node pairs of a path without repeated nodes give
      distinct edge ids, provided the edge index is injective. */
  lemma EdgePathDistinct<L>(p: seq<L>, edgeId: map<(L, L), nat>)
    requires Walks(p, edgeId.Keys) && NoDup(p)
    requires forall u, v :: u in edgeId && v in edgeId && edgeId[u] == edgeId[v] ==> u == v
    ensures NoDup(EdgePathOf(p, edgeId))
  {
    var r := EdgePathOf(p, edgeId);
    forall x, y | 0 <= x < y < |r| ensures r[x] != r[y] {
      EdgePathAt(p, edgeId, x);
      EdgePathAt(p, edgeId, y);
      assert p[x] != p[y] && p[x] != p[y + 1] && p[x + 1] != p[y + 1];
      DistinctEdgeIds(edgeId, p[x], p[x + 1], p[y], p[y + 1]);
    }
  }

  /** When the search returns paths without repeated nodes, every route of
      the entry crosses each edge at most once. */
  lemma EntryRoutesDistinct<L>(found: seq<seq<L>>, edgeId: map<(L, L), nat>, c: nat)
    requires |found| >= 1 && c < Choices
    requires forall k :: 0 <= k < |found| ==> Walks(found[k], edgeId.Keys) && NoDup(found[k])
    requires forall u, v :: u in edgeId && v in edgeId && edgeId[u] == edgeId[v] ==> u == v
    ensures NoDup(CatalogueEntry(found, edgeId)[c])
  {
    EdgePathDistinct(Candidates(found)[c], edgeId);
  }
}
