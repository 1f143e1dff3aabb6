/**
 * The topology index: node labels and edge labels of the graph mapped to
 * dense integer ids, in the graph's iteration order.
 */
module Topology {

  predicate NoDup<X(==)>(xs: seq<X>) {
    forall i, j :: 0 <= i < j < |xs| ==> xs[i] != xs[j]
  }

  function Rev<X>(e: (X, X)): (X, X) {
    (e.1, e.0)
  }

  /** What an undirected simple graph offers: distinct nodes, and edges
      between them of which each is listed once, in one orientation. */
  ghost predicate GraphOk<L>(nodes: seq<L>, edges: seq<(L, L)>) {
    && NoDup(nodes)
    && NoDup(edges)
    && (forall k :: 0 <= k < |edges| ==> edges[k].0 in nodes && edges[k].1 in nodes)
    && (forall i, j :: 0 <= i < j < |edges| ==> edges[i] != Rev(edges[j]))
  }

  /** m gives every element of xs its position in xs, and has no other key. */
  ghost predicate IsIndex<X>(m: map<X, nat>, xs: seq<X>) {
    && m.Keys == (set x | x in xs)
    && (forall i :: 0 <= i < |xs| ==> xs[i] in m && m[xs[i]] == i)
  }

  /** Numbers the labels 0, 1, 2, ... in the order they are listed.  The
      result is a bijection from the listed labels onto 0 .. |xs| - 1. */
  method IndexLabels<X(==)>(xs: seq<X>) returns (m: map<X, nat>)
    requires NoDup(xs)
    ensures m.Keys == set x | x in xs
    ensures forall i :: 0 <= i < |xs| ==> xs[i] in m && m[xs[i]] == i
    ensures forall x :: x in m ==> m[x] < |xs| && xs[m[x]] == x
  {
    var count := 0;
    m := map[];
    for k := 0 to |xs|
      invariant count == k
      invariant m.Keys == set x | x in xs[..k]
      invariant forall i :: 0 <= i < k ==> xs[i] in m && m[xs[i]] == i
      invariant forall x :: x in m ==> m[x] < k && xs[m[x]] == x
    {
      m := m[xs[k] := count];
      count := count + 1;
    }
    assert xs[..|xs|] == xs;
  }

  /** An index is injective and takes its values in 0 .. |xs| - 1. */
  lemma IndexBijective<X>(m: map<X, nat>, xs: seq<X>)
    requires IsIndex(m, xs) && NoDup(xs)
    ensures forall x :: x in m ==> m[x] < |xs| && xs[m[x]] == x
    ensures forall x, y :: x in m && y in m && m[x] == m[y] ==> x == y
  {
  }
}
