/**
 * The link-state store as the simulator keeps it: a mutable matrix with one
 * row per edge and one column per wavelength slot, changed in place.  Each
 * operation is proved against its counterpart on values in module LinkState.
 */
module LinkStore {
  import opened LinkState

  /** The value currently held by the matrix. */
  function Snapshot(a: array2<int>): (r: LinkStates)
    reads a
    ensures |r| == a.Length0
    ensures forall e :: 0 <= e < a.Length0 ==> |r[e]| == a.Length1
    ensures forall e, i :: 0 <= e < a.Length0 && 0 <= i < a.Length1 ==> r[e][i] == a[e, i]
  {
    seq(a.Length0, e requires 0 <= e < a.Length0 reads a =>
      seq(a.Length1, i requires 0 <= i < a.Length1 reads a => a[e, i]))
  }

  /** Two link states of the same shape that agree slot by slot are equal. */
  lemma SameLinkStates(L: LinkStates, M: LinkStates)
    requires |L| == |M|
    requires forall e :: 0 <= e < |L| ==> |L[e]| == |M[e]|
    requires forall e, i :: 0 <= e < |L| && 0 <= i < |L[e]| ==> L[e][i] == M[e][i]
    ensures L == M
  {
    forall e | 0 <= e < |L| ensures L[e] == M[e] {
      assert forall i :: 0 <= i < |L[e]| ==> L[e][i] == M[e][i];
    }
  }

  /** Decrements every positive slot by one, edge by edge and slot by slot. */
  method DecayInPlace(a: array2<int>)
    modifies a
    ensures Snapshot(a) == Decay(old(Snapshot(a)))
  {
    ghost var before := Snapshot(a);
    var e := 0;
    while e < a.Length0
      invariant 0 <= e <= a.Length0
      invariant forall x, i :: 0 <= x < a.Length0 && 0 <= i < a.Length1 ==>
        a[x, i] == if x < e then DecaySlot(before[x][i]) else before[x][i]
    {
      var i := 0;
      while i < a.Length1
        invariant 0 <= i <= a.Length1
        invariant forall x, j :: 0 <= x < a.Length0 && 0 <= j < a.Length1 ==>
          a[x, j] == if x < e || (x == e && j < i) then DecaySlot(before[x][j]) else before[x][j]
      {
        if a[e, i] > 0 {
          a[e, i] := a[e, i] - 1;
        }
        i := i + 1;
      }
      e := e + 1;
    }
    SameLinkStates(Snapshot(a), Decay(before));
  }

  /** The number of occupied slots on edge e. */
  method Occupied(a: array2<int>, e: nat) returns (n: nat)
    requires e < a.Length0
    ensures n == Used(Snapshot(a)[e])
  {
    ghost var row := Snapshot(a)[e];
    n := 0;
    var i := 0;
    while i < a.Length1
      invariant 0 <= i <= a.Length1
      invariant n == Used(row[..i])
    {
      assert row[..i + 1][..i] == row[..i];
      if a[e, i] > 0 {
        n := n + 1;
      }
      i := i + 1;
    }
    assert row[..a.Length1] == row;
  }

  /** Gives the lowest-index free slot of edge e the holding time ht; a
      full edge is left unchanged. */
  method AdmitInPlace(a: array2<int>, e: nat, ht: int)
    requires e < a.Length0
    modifies a
    ensures Snapshot(a) == AdmitOne(old(Snapshot(a)), e, ht)
  {
    ghost var before := Snapshot(a);
    var i := 0;
    while i < a.Length1
      invariant 0 <= i <= a.Length1
      invariant forall j :: 0 <= j < i ==> a[e, j] != 0
      invariant forall x, j :: 0 <= x < a.Length0 && 0 <= j < a.Length1 ==> a[x, j] == before[x][j]
    {
      if a[e, i] == 0 {
        a[e, i] := ht;
        assert FirstFree(before[e]) == Some(i);
        SameLinkStates(Snapshot(a), AdmitOne(before, e, ht));
        return;
      }
      i := i + 1;
    }
    assert FirstFree(before[e]) == None;
    SameLinkStates(Snapshot(a), AdmitOne(before, e, ht));
  }
}
