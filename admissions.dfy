/**
 * Consecutive admissions of equal holding time along one route, starting
 * from free links: the shape of a link's row after k such rounds, and what
 * the next round finds.
 */
module Admissions {
  import opened Topology
  import opened LinkState

  /** The row of a link that took one request of holding time h in each of
      the last k rounds: slot j was written k - 1 - j rounds ago.  A free
      row, as after a reset, is Staircase(0, h). */
  function Staircase(k: nat, h: int): (row: seq<int>)
    requires k <= W
    ensures |row| == W
  {
    seq(W, j requires 0 <= j < W => if j < k then h - (k - 1 - j) else 0)
  }

  /** The staircase after the decay that opens the next round. */
  lemma DecayedStaircase(L: LinkStates, e: nat, k: nat, h: int)
    requires e < |L| && k <= W && h >= W && L[e] == Staircase(k, h)
    ensures Decay(L)[e] == seq(W, j requires 0 <= j < W => if j < k then h - (k - j) else 0)
  {
    var d := seq(W, j requires 0 <= j < W => if j < k then h - (k - j) else 0);
    forall j | 0 <= j < W ensures Decay(L)[e][j] == d[j] {
      assert L[e][j] == if j < k then h - (k - 1 - j) else 0;
    }
  }

  /** Round k + 1 of the scenario, for k < W: after decay every link of the
      route still has a free slot, the first one at position k, and the
      admission turns each staircase of k rounds into one of k + 1. */
  lemma {:induction false} StaircaseRound(L: LinkStates, route: seq<nat>, k: nat, h: int)
    requires OnLinks(L, route) && NoDup(route) && WellShaped(L) && NonNegative(L)
    requires k < W && h >= W
    requires forall x :: 0 <= x < |route| ==> L[route[x]] == Staircase(k, h)
    ensures Feasible(Decay(L), route)
    ensures forall x :: 0 <= x < |route| ==> AdmitPath(Decay(L), route, h)[route[x]] == Staircase(k + 1, h)
  {
    var D := Decay(L);
    assert WellShaped(D) && NonNegative(D);
    forall x | 0 <= x < |route|
      ensures FirstFree(D[route[x]]) == Some(k)
      ensures AdmitRow(D[route[x]], h) == Staircase(k + 1, h)
    {
      DecayedStaircase(L, route[x], k, h);
      var row := D[route[x]];
      assert row[k] == 0;
      assert forall j :: 0 <= j < k ==> row[j] == h - (k - j) > 0;
      assert row[k := h] == Staircase(k + 1, h);
    }
    FeasibleIffFree(D, route);
    AdmitPathAt(D, route, h);
  }

  /** Round W + 1 of the scenario: the oldest slot of each link has decayed
      to h - W, so the route has room again exactly when h == W. */
  lemma FullStaircaseRound(L: LinkStates, route: seq<nat>, h: int)
    requires OnLinks(L, route) && |route| >= 1 && WellShaped(L) && NonNegative(L)
    requires h >= W
    requires forall x :: 0 <= x < |route| ==> L[route[x]] == Staircase(W, h)
    ensures Feasible(Decay(L), route) <==> h == W
  {
    var D := Decay(L);
    assert WellShaped(D) && NonNegative(D);
    forall x | 0 <= x < |route|
      ensures FirstFree(D[route[x]]).Some? <==> h == W
    {
      DecayedStaircase(L, route[x], W, h);
      var row := D[route[x]];
      assert row[0] == h - W;
      assert forall j :: 0 <= j < W ==> row[j] == h - (W - j) >= h - W;
      if h == W {
        assert row[0] == 0;
      }
    }
    FeasibleIffFree(D, route);
    assert FirstFree(D[route[0]]).Some? <==> h == W;
  }
}
