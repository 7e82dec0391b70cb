/**
  `ComputeHyperAndSuperStructure_ResetHyperparentsId`: once the supernodes
  have been renumbered, every hyperparent is relabelled in place through the
  renumbering table, `hyperparents[s] := superSortIndex[maskedIndex(hyperparents[s])]`.
  Each slot is read and written only by its own iteration.
*/
module ResetHyperparents {
  import opened ContourTreeTypes

  /** Every hyperparent of a supernode of the table masks to an index of the table. */
  predicate RemappableHyperparents(superSortIndex: seq<Id>, hyperparents: seq<Id>)
  {
    |superSortIndex| <= |hyperparents| &&
    forall s :: 0 <= s < |superSortIndex| ==> MaskedIndex(hyperparents[s]) < |superSortIndex|
  }

  /** The slots visited are supernodes of the table, none of them twice. */
  predicate DistinctSupernodes(order: seq<nat>, n: nat)
  {
    (forall k :: 0 <= k < |order| ==> order[k] < n) &&
    (forall k, l :: 0 <= k < l < |order| ==> order[k] != order[l])
  }

  /**
    The in-place relabelling applied slot by slot in the given order. Whatever
    the order, a visited slot ends up with the relabelled OLD value of that
    slot and every other slot keeps its value: the loop is a pointwise map.
  */
  function RelabelInOrder(superSortIndex: seq<Id>, hyperparents: seq<Id>, order: seq<nat>): (r: seq<Id>)
    requires RemappableHyperparents(superSortIndex, hyperparents)
    requires DistinctSupernodes(order, |superSortIndex|)
    ensures |r| == |hyperparents|
    ensures forall s :: 0 <= s < |hyperparents| ==>
      r[s] == if s in order then superSortIndex[MaskedIndex(hyperparents[s])] else hyperparents[s]
    decreases |order|
  {
    if order == [] then hyperparents
    else
      var prefix := order[..|order| - 1];
      var s := order[|order| - 1];
      assert forall t :: t in order <==> t in prefix || t == s;
      assert s !in prefix;
      var prev := RelabelInOrder(superSortIndex, hyperparents, prefix);
      prev[s := superSortIndex[MaskedIndex(prev[s])]]
  }

  /** The supernodes `0, 1, ..., n - 1` in increasing order. */
  function Supernodes(n: nat): (order: seq<nat>)
    ensures |order| == n && forall k :: 0 <= k < n ==> order[k] == k
  {
    seq(n, k => k)
  }

  /**
    The serial loop of the worklet over all supernodes of the table. Slots
    of `hyperparents` past the table are left as they are.
  */
  method ResetHyperparentsId(superSortIndex: seq<Id>, hyperparents: array<Id>)
    requires RemappableHyperparents(superSortIndex, hyperparents[..])
    modifies hyperparents
    ensures forall s :: 0 <= s < |superSortIndex| ==>
      hyperparents[s] == superSortIndex[MaskedIndex(old(hyperparents[s]))]
    ensures forall s :: |superSortIndex| <= s < hyperparents.Length ==> hyperparents[s] == old(hyperparents[s])
    ensures hyperparents[..] == RelabelInOrder(superSortIndex, old(hyperparents[..]), Supernodes(|superSortIndex|))
  {
    var supernode := 0;
    while supernode < |superSortIndex|
      invariant supernode <= |superSortIndex|
      invariant forall s :: 0 <= s < supernode ==>
        hyperparents[s] == superSortIndex[MaskedIndex(old(hyperparents[s]))]
      invariant forall s :: supernode <= s < hyperparents.Length ==> hyperparents[s] == old(hyperparents[s])
    {
      hyperparents[supernode] := superSortIndex[MaskedIndex(hyperparents[supernode])];
      supernode := supernode + 1;
    }
    ghost var expected := RelabelInOrder(superSortIndex, old(hyperparents[..]), Supernodes(|superSortIndex|));
    forall s | 0 <= s < |superSortIndex| ensures s in Supernodes(|superSortIndex|) {
      assert Supernodes(|superSortIndex|)[s] == s;
    }
    assert hyperparents[..] == expected;
  }

  /** Any two visiting orders of the same supernodes give the same array. */
  lemma RelabelOrderIndependent(superSortIndex: seq<Id>, hyperparents: seq<Id>, order1: seq<nat>, order2: seq<nat>)
    requires RemappableHyperparents(superSortIndex, hyperparents)
    requires DistinctSupernodes(order1, |superSortIndex|) && DistinctSupernodes(order2, |superSortIndex|)
    requires forall s :: s in order1 <==> s in order2
    ensures RelabelInOrder(superSortIndex, hyperparents, order1) == RelabelInOrder(superSortIndex, hyperparents, order2)
  {
    var r1 := RelabelInOrder(superSortIndex, hyperparents, order1);
    var r2 := RelabelInOrder(superSortIndex, hyperparents, order2);
    assert forall s :: 0 <= s < |hyperparents| ==> r1[s] == r2[s];
  }
}
