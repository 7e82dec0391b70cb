/**
  `SortIndices`: the inverse of the global sort order. Position `i` of the
  sort order holds the vertex of rank `i`; the worklet scatters `i` into the
  slot of that vertex, so that afterwards `sortIndices[v]` is the rank of `v`.
*/
module SortIndicesStep {

  /** A bijection of `[0, |s|)`: entries in range, pairwise distinct, every value present. */
  predicate IsPermutation(s: seq<nat>)
  {
    (forall i :: 0 <= i < |s| ==> s[i] < |s|) &&
    (forall i, j :: 0 <= i < j < |s| ==> s[i] != s[j]) &&
    (forall v :: 0 <= v < |s| ==> v in s)
  }

  /** Every vertex named by the sort order has a slot in the output. */
  predicate VerticesInRange(sortOrder: seq<nat>, n: nat)
  {
    forall i :: 0 <= i < |sortOrder| ==> sortOrder[i] < n
  }

  /** The serial scatter `sortIndices[sortOrder[i]] := i` for `i = 0, 1, ...`, in that order. */
  function Scatter(sortOrder: seq<nat>, sortIndices: seq<nat>): (r: seq<nat>)
    requires VerticesInRange(sortOrder, |sortIndices|)
    ensures |r| == |sortIndices|
    decreases |sortOrder|
  {
    if sortOrder == [] then sortIndices
    else Scatter(sortOrder[..|sortOrder| - 1], sortIndices)[sortOrder[|sortOrder| - 1] := |sortOrder| - 1]
  }

  /** In the serial order, the last position that names a vertex is the one its slot keeps. */
  lemma {:induction false} ScatterLastWriteWins(sortOrder: seq<nat>, sortIndices: seq<nat>, i: nat)
    requires VerticesInRange(sortOrder, |sortIndices|) && i < |sortOrder|
    requires forall j :: i < j < |sortOrder| ==> sortOrder[j] != sortOrder[i]
    ensures Scatter(sortOrder, sortIndices)[sortOrder[i]] == i
    decreases |sortOrder|
  {
    if i < |sortOrder| - 1 {
      var prefix := sortOrder[..|sortOrder| - 1];
      ScatterLastWriteWins(prefix, sortIndices, i);
    }
  }

  /** A vertex the sort order never names keeps its old slot. */
  lemma {:induction false} ScatterUntouched(sortOrder: seq<nat>, sortIndices: seq<nat>, v: nat)
    requires VerticesInRange(sortOrder, |sortIndices|) && v < |sortIndices| && v !in sortOrder
    ensures Scatter(sortOrder, sortIndices)[v] == sortIndices[v]
    decreases |sortOrder|
  {
    if sortOrder != [] {
      var prefix := sortOrder[..|sortOrder| - 1];
      assert forall k :: 0 <= k < |prefix| ==> prefix[k] == sortOrder[k];
      ScatterUntouched(prefix, sortIndices, v);
    }
  }

  /**
    When the sort order is a permutation, the scatter yields its inverse:
    both compositions are the identity and the result is itself a
    permutation, whatever the output array held before.
  */
  lemma ScatterInverts(sortOrder: seq<nat>, sortIndices: seq<nat>)
    requires IsPermutation(sortOrder) && |sortIndices| == |sortOrder|
    ensures var r := Scatter(sortOrder, sortIndices);
      (forall i :: 0 <= i < |sortOrder| ==> r[sortOrder[i]] == i) &&
      (forall v :: 0 <= v < |r| ==> r[v] < |sortOrder| && sortOrder[r[v]] == v) &&
      IsPermutation(r)
  {
    var r := Scatter(sortOrder, sortIndices);
    forall i | 0 <= i < |sortOrder|
      ensures r[sortOrder[i]] == i
    {
      ScatterLastWriteWins(sortOrder, sortIndices, i);
    }
    forall v | 0 <= v < |r|
      ensures r[v] < |sortOrder| && sortOrder[r[v]] == v
    {
      assert v in sortOrder;
      var i :| 0 <= i < |sortOrder| && sortOrder[i] == v;
      assert r[v] == i;
    }
    forall i | 0 <= i < |r|
      ensures i in r
    {
      assert r[sortOrder[i]] == i;
    }
    forall i, j | 0 <= i < j < |r|
      ensures r[i] != r[j]
    {
      assert sortOrder[r[i]] == i && sortOrder[r[j]] == j;
    }
  }

  /** With a permutation every slot is written exactly once, so the old contents do not matter. */
  lemma ScatterIgnoresOldContents(sortOrder: seq<nat>, a: seq<nat>, b: seq<nat>)
    requires IsPermutation(sortOrder) && |a| == |sortOrder| && |b| == |sortOrder|
    ensures Scatter(sortOrder, a) == Scatter(sortOrder, b)
  {
    var ra, rb := Scatter(sortOrder, a), Scatter(sortOrder, b);
    forall v | 0 <= v < |ra|
      ensures ra[v] == rb[v]
    {
      assert v in sortOrder;
      var i :| 0 <= i < |sortOrder| && sortOrder[i] == v;
      ScatterLastWriteWins(sortOrder, a, i);
      ScatterLastWriteWins(sortOrder, b, i);
    }
  }

  /**
    The serial loop of the worklet over every position of the sort order,
    which it only reads.
  */
  method SortIndices(sortOrder: seq<nat>, sortIndices: array<nat>)
    requires VerticesInRange(sortOrder, sortIndices.Length)
    modifies sortIndices
    ensures sortIndices[..] == Scatter(sortOrder, old(sortIndices[..]))
    ensures IsPermutation(sortOrder) && |sortOrder| == sortIndices.Length ==>
      IsPermutation(sortIndices[..]) &&
      (forall i :: 0 <= i < |sortOrder| ==> sortIndices[sortOrder[i]] == i) &&
      (forall v :: 0 <= v < sortIndices.Length ==> sortOrder[sortIndices[v]] == v)
  {
    var vertexIndex := 0;
    while vertexIndex < |sortOrder|
      invariant vertexIndex <= |sortOrder|
      invariant sortIndices[..] == Scatter(sortOrder[..vertexIndex], old(sortIndices[..]))
    {
      assert sortOrder[..vertexIndex + 1][..vertexIndex] == sortOrder[..vertexIndex];
      sortIndices[sortOrder[vertexIndex]] := vertexIndex;
      vertexIndex := vertexIndex + 1;
    }
    assert sortOrder[..vertexIndex] == sortOrder;
    if IsPermutation(sortOrder) && |sortOrder| == sortIndices.Length {
      ScatterInverts(sortOrder, old(sortIndices[..]));
    }
  }
}
