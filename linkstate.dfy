/**
 * The link-state store as a value: one row per edge, W wavelength slots per
 * row, each slot 0 (free) or the remaining holding time of the request that
 * occupies it.  The simulator's in-place operations (module LinkStore) are
 * proved against the functions of this module.
 */
module LinkState {
  import opened Topology

  /** Number of wavelength slots on every link. */
  const W: nat := 10

  type LinkStates = seq<seq<int>>

  datatype Option<T> = None | Some(value: T)

  /** Every link has exactly W slots. */
  ghost predicate WellShaped(L: LinkStates) {
    forall e :: 0 <= e < |L| ==> |L[e]| == W
  }

  /** Every slot holds a value in [0, bound). */
  ghost predicate Bounded(L: LinkStates, bound: int) {
    forall e, i :: 0 <= e < |L| && 0 <= i < |L[e]| ==> 0 <= L[e][i] < bound
  }

  /** No slot is negative. */
  ghost predicate NonNegative(L: LinkStates) {
    forall e, i :: 0 <= e < |L| && 0 <= i < |L[e]| ==> L[e][i] >= 0
  }

  /** Every id on the route names a link of L. */
  ghost predicate OnLinks(L: LinkStates, route: seq<nat>) {
    forall k :: 0 <= k < |route| ==> route[k] < |L|
  }

  /** The all-free state of n links. */
  function Zeros(n: nat): (r: LinkStates)
    ensures |r| == n && WellShaped(r)
    ensures forall e, i :: 0 <= e < n && 0 <= i < W ==> r[e][i] == 0
  {
    seq(n, e => seq(W, i => 0))
  }

  // ---------------------------------------------------------------------
  // Decay
  // ---------------------------------------------------------------------

  function DecaySlot(v: int): int {
    if v > 0 then v - 1 else v
  }

  /** One round of holding-time decay over every slot of every link. */
  function Decay(L: LinkStates): (r: LinkStates)
    ensures |r| == |L|
    ensures forall e :: 0 <= e < |L| ==> |r[e]| == |L[e]|
    ensures forall e, i :: 0 <= e < |L| && 0 <= i < |L[e]| && L[e][i] > 0 ==> r[e][i] == L[e][i] - 1
    ensures forall e, i :: 0 <= e < |L| && 0 <= i < |L[e]| && L[e][i] <= 0 ==> r[e][i] == L[e][i]
  {
    seq(|L|, e requires 0 <= e < |L| => seq(|L[e]|, i requires 0 <= i < |L[e]| => DecaySlot(L[e][i])))
  }

  /** Decay cannot take a slot below zero nor above where it was. */
  lemma DecayBounded(L: LinkStates, bound: int)
    requires Bounded(L, bound)
    ensures Bounded(Decay(L), bound)
    ensures WellShaped(L) ==> WellShaped(Decay(L))
  {
  }

  /** n consecutive rounds of decay. */
  function DecayN(L: LinkStates, n: nat): (r: LinkStates)
    ensures |r| == |L|
    ensures forall e :: 0 <= e < |L| ==> |r[e]| == |L[e]|
  {
    if n == 0 then L else Decay(DecayN(L, n - 1))
  }

  /** A slot holding h >= 0 holds max(h - n, 0) after n rounds of decay:
      it is positive for the first h - 1 rounds and free exactly from round h on. */
  lemma {:induction false} DecayNAt(L: LinkStates, n: nat, e: nat, i: nat)
    requires e < |L| && i < |L[e]| && L[e][i] >= 0
    ensures DecayN(L, n)[e][i] == if L[e][i] >= n then L[e][i] - n else 0
  {
    if n > 0 {
      DecayNAt(L, n - 1, e, i);
    }
  }

  // ---------------------------------------------------------------------
  // Occupancy and the first free slot
  // ---------------------------------------------------------------------

  /** Number of occupied (positive) slots of a row. */
  function Used(row: seq<int>): (n: nat)
    ensures n <= |row|
  {
    if row == [] then 0
    else Used(row[..|row| - 1]) + (if row[|row| - 1] > 0 then 1 else 0)
  }

  /** A row is full exactly when every slot is occupied. */
  lemma {:induction false} UsedFull(row: seq<int>)
    ensures Used(row) == |row| <==> forall i :: 0 <= i < |row| ==> row[i] > 0
  {
    if row != [] {
      var pre := row[..|row| - 1];
      UsedFull(pre);
      assert forall i :: 0 <= i < |pre| ==> pre[i] == row[i];
    }
  }

  /** Writing a positive value into a free slot adds exactly one occupied slot. */
  lemma {:induction false} UsedUpdate(row: seq<int>, i: nat, v: int)
    requires i < |row| && row[i] == 0 && v > 0
    ensures Used(row[i := v]) == Used(row) + 1
  {
    var n := |row|;
    var row' := row[i := v];
    if i == n - 1 {
      assert row'[..n - 1] == row[..n - 1];
    } else {
      assert row'[..n - 1] == row[..n - 1][i := v];
      UsedUpdate(row[..n - 1], i, v);
    }
  }

  function FirstFreeFrom(row: seq<int>, i: nat): (r: Option<nat>)
    requires i <= |row|
    ensures r.Some? ==> i <= r.value < |row| && row[r.value] == 0
    ensures r.Some? ==> forall j :: i <= j < r.value ==> row[j] != 0
    ensures r.None? ==> forall j :: i <= j < |row| ==> row[j] != 0
    decreases |row| - i
  {
    if i == |row| then None
    else if row[i] == 0 then Some(i)
    else FirstFreeFrom(row, i + 1)
  }

  /** The lowest-index free slot of a row, if there is one. */
  function FirstFree(row: seq<int>): (r: Option<nat>)
    ensures r.Some? <==> exists j :: 0 <= j < |row| && row[j] == 0
    ensures r.Some? ==> r.value < |row| && row[r.value] == 0 && forall j :: 0 <= j < r.value ==> row[j] != 0
  {
    FirstFreeFrom(row, 0)
  }

  /** For a row without negative slots, room for one more request is the
      same as having a free slot. */
  lemma RoomIffFree(row: seq<int>)
    requires forall i :: 0 <= i < |row| ==> row[i] >= 0
    ensures Used(row) + 1 <= |row| <==> FirstFree(row).Some?
  {
    UsedFull(row);
  }

  // ---------------------------------------------------------------------
  // Admission
  // ---------------------------------------------------------------------

  /** The first free slot of the row takes the holding time; a full row is
      left as it is. */
  function AdmitRow(row: seq<int>, ht: int): (r: seq<int>)
    ensures |r| == |row|
  {
    match FirstFree(row)
    case Some(i) => row[i := ht]
    case None => row
  }

  /** Admitting on a row with a free slot changes exactly its lowest free
      slot, to the holding time, and raises the occupied count by one. */
  lemma AdmitRowEffect(row: seq<int>, ht: int)
    requires FirstFree(row).Some? && ht > 0
    ensures var i := FirstFree(row).value;
      && AdmitRow(row, ht)[i] == ht
      && (forall j :: 0 <= j < |row| && j != i ==> AdmitRow(row, ht)[j] == row[j])
      && (forall j :: 0 <= j < i ==> row[j] != 0)
      && Used(AdmitRow(row, ht)) == Used(row) + 1
  {
    UsedUpdate(row, FirstFree(row).value, ht);
  }

  function AdmitOne(L: LinkStates, e: nat, ht: int): (r: LinkStates)
    requires e < |L|
    ensures |r| == |L| && forall x :: 0 <= x < |L| ==> |r[x]| == |L[x]|
  {
    L[e := AdmitRow(L[e], ht)]
  }

  /** Admission along a route: each link of the route, in order, gives its
      first free slot to the holding time. */
  function AdmitPath(L: LinkStates, route: seq<nat>, ht: int): (r: LinkStates)
    requires OnLinks(L, route)
    ensures |r| == |L| && forall x :: 0 <= x < |L| ==> |r[x]| == |L[x]|
  {
    if route == [] then L
    else AdmitOne(AdmitPath(L, route[..|route| - 1], ht), route[|route| - 1], ht)
  }

  /** Along a route of distinct links, each link of the route is admitted
      once and every other link is untouched. */
  lemma {:induction false} AdmitPathAt(L: LinkStates, route: seq<nat>, ht: int)
    requires OnLinks(L, route) && NoDup(route)
    ensures forall e :: 0 <= e < |L| ==>
      AdmitPath(L, route, ht)[e] == if e in route then AdmitRow(L[e], ht) else L[e]
  {
    if route != [] {
      var pre := route[..|route| - 1];
      var last := route[|route| - 1];
      AdmitPathAt(L, pre, ht);
      assert last !in pre by {
        forall k | 0 <= k < |pre| ensures pre[k] != last {
          assert pre[k] == route[k];
        }
      }
      forall e | 0 <= e < |L|
        ensures AdmitPath(L, route, ht)[e] == if e in route then AdmitRow(L[e], ht) else L[e]
      {
        assert e in route <==> e in pre || e == last;
      }
    }
  }

  /** Admission keeps every slot within [0, bound) when the holding time is. */
  lemma {:induction false} AdmitPathBounded(L: LinkStates, route: seq<nat>, ht: int, bound: int)
    requires OnLinks(L, route) && Bounded(L, bound) && 0 <= ht < bound
    ensures Bounded(AdmitPath(L, route, ht), bound)
  {
    if route != [] {
      AdmitPathBounded(L, route[..|route| - 1], ht, bound);
    }
  }

  // ---------------------------------------------------------------------
  // Feasibility
  // ---------------------------------------------------------------------

  /** Every link of the route would hold at most W requests after taking
      this one. */
  ghost predicate Feasible(L: LinkStates, route: seq<nat>)
    requires OnLinks(L, route)
  {
    forall k :: 0 <= k < |route| ==> Used(L[route[k]]) + 1 <= W
  }

  /** On well-shaped, non-negative link states a route is feasible exactly
      when each of its links has a free slot. */
  lemma FeasibleIffFree(L: LinkStates, route: seq<nat>)
    requires OnLinks(L, route) && WellShaped(L) && NonNegative(L)
    ensures Feasible(L, route) <==> forall k :: 0 <= k < |route| ==> FirstFree(L[route[k]]).Some?
  {
    forall k | 0 <= k < |route| {
      RoomIffFree(L[route[k]]);
    }
  }

  /** Admitting a feasible request along a route of distinct links: on each
      link of the route the lowest free slot takes the holding time and the
      occupied count rises by exactly one; no other link changes. */
  lemma AdmissionEffect(L: LinkStates, route: seq<nat>, ht: int)
    requires OnLinks(L, route) && NoDup(route) && WellShaped(L) && NonNegative(L)
    requires Feasible(L, route) && ht > 0
    ensures forall e :: 0 <= e < |L| && e !in route ==> AdmitPath(L, route, ht)[e] == L[e]
    ensures forall k :: 0 <= k < |route| ==>
      && FirstFree(L[route[k]]).Some?
      && AdmitPath(L, route, ht)[route[k]] == L[route[k]][FirstFree(L[route[k]]).value := ht]
      && Used(AdmitPath(L, route, ht)[route[k]]) == Used(L[route[k]]) + 1
  {
    AdmitPathAt(L, route, ht);
    FeasibleIffFree(L, route);
    forall k | 0 <= k < |route|
      ensures Used(AdmitPath(L, route, ht)[route[k]]) == Used(L[route[k]]) + 1
    {
      AdmitRowEffect(L[route[k]], ht);
    }
  }
}
