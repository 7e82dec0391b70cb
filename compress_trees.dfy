/**
  One round of arc shortcutting over the augmented join and split superarcs
  of the supernodes (`CompressTrees_Step`). For every active supernode, in
  the order of the active list, an arc that points at a supernode whose
  contour-tree superarc is already set is redirected to that supernode's own
  arc. Later supernodes of the round see the arcs rewritten by earlier ones.
*/
module CompressTrees {
  import opened ContourTreeTypes

  /** Every arc is the sentinel or a masked index into the same array. */
  predicate ValidArcs(arcs: seq<Id>)
  {
    forall i :: 0 <= i < |arcs| ==> ValidRef(arcs[i], |arcs|)
  }

  /** Every id of the active list names a supernode. */
  predicate ValidActive(active: seq<nat>, n: nat)
  {
    forall k :: 0 <= k < |active| ==> active[k] < n
  }

  /**
    One iteration of the serial loop on one of the two arc arrays: the arc of
    `superID` jumps past its target when the target exists and already has a
    contour-tree superarc; nothing else changes.
  */
  function JumpArc(contourTreeSuperarcs: seq<Id>, arcs: seq<Id>, superID: nat): (r: seq<Id>)
    requires |contourTreeSuperarcs| == |arcs| && ValidArcs(arcs) && superID < |arcs|
    ensures |r| == |arcs| && ValidArcs(r)
    ensures forall i :: 0 <= i < |arcs| && i != superID ==> r[i] == arcs[i]
    ensures NoSuchElement(arcs[superID]) ==> r == arcs
    ensures !NoSuchElement(arcs[superID]) && NoSuchElement(contourTreeSuperarcs[MaskedIndex(arcs[superID])])
      ==> r == arcs
    ensures !NoSuchElement(arcs[superID]) && !NoSuchElement(contourTreeSuperarcs[MaskedIndex(arcs[superID])])
      ==> r[superID] == arcs[MaskedIndex(arcs[superID])]
  {
    var neighbour := arcs[superID];
    if !NoSuchElement(neighbour) && !NoSuchElement(contourTreeSuperarcs[MaskedIndex(neighbour)])
    then arcs[superID := arcs[MaskedIndex(neighbour)]]
    else arcs
  }

  /** The serial loop on one arc array: `JumpArc` for every active supernode, in list order. */
  function Compress(contourTreeSuperarcs: seq<Id>, arcs: seq<Id>, active: seq<nat>): (r: seq<Id>)
    requires |contourTreeSuperarcs| == |arcs| && ValidArcs(arcs) && ValidActive(active, |arcs|)
    ensures |r| == |arcs| && ValidArcs(r)
    decreases |active|
  {
    if active == [] then arcs
    else JumpArc(contourTreeSuperarcs, Compress(contourTreeSuperarcs, arcs, active[..|active| - 1]), active[|active| - 1])
  }

  /**
    `CompressTrees_Step` run serially over the active supernodes: both arc
    arrays are compressed by the same rule, each independently of the other,
    and the contour-tree superarcs are only read.
  */
  method CompressTreesStep(activeSupernodes: seq<nat>, contourTreeSuperarcs: seq<Id>,
                           augmentedJoinSuperarcs: array<Id>, augmentedSplitSuperarcs: array<Id>)
    requires augmentedJoinSuperarcs != augmentedSplitSuperarcs
    requires augmentedJoinSuperarcs.Length == |contourTreeSuperarcs|
    requires augmentedSplitSuperarcs.Length == |contourTreeSuperarcs|
    requires ValidArcs(augmentedJoinSuperarcs[..]) && ValidArcs(augmentedSplitSuperarcs[..])
    requires ValidActive(activeSupernodes, |contourTreeSuperarcs|)
    modifies augmentedJoinSuperarcs, augmentedSplitSuperarcs
    ensures augmentedJoinSuperarcs[..] == Compress(contourTreeSuperarcs, old(augmentedJoinSuperarcs[..]), activeSupernodes)
    ensures augmentedSplitSuperarcs[..] == Compress(contourTreeSuperarcs, old(augmentedSplitSuperarcs[..]), activeSupernodes)
  {
    var activeID := 0;
    while activeID < |activeSupernodes|
      invariant activeID <= |activeSupernodes|
      invariant augmentedJoinSuperarcs[..]
        == Compress(contourTreeSuperarcs, old(augmentedJoinSuperarcs[..]), activeSupernodes[..activeID])
      invariant augmentedSplitSuperarcs[..]
        == Compress(contourTreeSuperarcs, old(augmentedSplitSuperarcs[..]), activeSupernodes[..activeID])
    {
      var superID := activeSupernodes[activeID];
      assert activeSupernodes[..activeID + 1][..activeID] == activeSupernodes[..activeID];

      var joinNeighbour := augmentedJoinSuperarcs[superID];
      if !NoSuchElement(joinNeighbour) {
        if !NoSuchElement(contourTreeSuperarcs[MaskedIndex(joinNeighbour)]) {
          augmentedJoinSuperarcs[superID] := augmentedJoinSuperarcs[MaskedIndex(joinNeighbour)];
        }
      }

      var splitNeighbour := augmentedSplitSuperarcs[superID];
      if !NoSuchElement(splitNeighbour) {
        if !NoSuchElement(contourTreeSuperarcs[MaskedIndex(splitNeighbour)]) {
          augmentedSplitSuperarcs[superID] := augmentedSplitSuperarcs[MaskedIndex(splitNeighbour)];
        }
      }
      activeID := activeID + 1;
    }
    assert activeSupernodes[..activeID] == activeSupernodes;
  }

  /** Following one arc: the sentinel stays put, anything else moves to its target's arc. */
  function Successor(arcs: seq<Id>, x: Id): (y: Id)
    requires ValidArcs(arcs) && ValidRef(x, |arcs|)
    ensures ValidRef(y, |arcs|)
  {
    if NoSuchElement(x) then x else arcs[MaskedIndex(x)]
  }

  /** `x` after following `k` arcs. */
  function Chain(arcs: seq<Id>, x: Id, k: nat): (y: Id)
    requires ValidArcs(arcs) && ValidRef(x, |arcs|)
    ensures ValidRef(y, |arcs|)
  {
    if k == 0 then x else Successor(arcs, Chain(arcs, x, k - 1))
  }

  lemma {:induction false} ChainAdd(arcs: seq<Id>, x: Id, a: nat, b: nat)
    requires ValidArcs(arcs) && ValidRef(x, |arcs|)
    ensures Chain(arcs, Chain(arcs, x, a), b) == Chain(arcs, x, a + b)
    decreases b
  {
    if b > 0 {
      ChainAdd(arcs, x, a, b - 1);
    }
  }

  /**
    Shortcutting never invents an arc: after the round, the arc of every
    supernode is reached from its old arc by following old arcs some number
    of times, however the active list is ordered.
  */
  lemma {:induction false} CompressFollowsChain(contourTreeSuperarcs: seq<Id>, arcs: seq<Id>, active: seq<nat>, v: nat)
    requires |contourTreeSuperarcs| == |arcs| && ValidArcs(arcs) && ValidActive(active, |arcs|)
    requires v < |arcs|
    ensures exists k: nat :: Compress(contourTreeSuperarcs, arcs, active)[v] == Chain(arcs, arcs[v], k)
    decreases |active|
  {
    if active == [] {
      assert Compress(contourTreeSuperarcs, arcs, active)[v] == Chain(arcs, arcs[v], 0);
    } else {
      var prefix := active[..|active| - 1];
      var s := active[|active| - 1];
      var prev := Compress(contourTreeSuperarcs, arcs, prefix);
      var r := Compress(contourTreeSuperarcs, arcs, active);
      assert r == JumpArc(contourTreeSuperarcs, prev, s);
      if v != s || NoSuchElement(prev[s]) || NoSuchElement(contourTreeSuperarcs[MaskedIndex(prev[s])]) {
        CompressFollowsChain(contourTreeSuperarcs, arcs, prefix, v);
        var k: nat :| prev[v] == Chain(arcs, arcs[v], k);
        assert r[v] == Chain(arcs, arcs[v], k);
      } else {
        var m := MaskedIndex(prev[s]);
        CompressFollowsChain(contourTreeSuperarcs, arcs, prefix, s);
        var k1: nat :| prev[s] == Chain(arcs, arcs[s], k1);
        CompressFollowsChain(contourTreeSuperarcs, arcs, prefix, m);
        var k2: nat :| prev[m] == Chain(arcs, arcs[m], k2);
        assert Chain(arcs, arcs[s], k1 + 1) == arcs[m];
        ChainAdd(arcs, arcs[s], k1 + 1, k2);
        assert r[v] == Chain(arcs, arcs[v], k1 + 1 + k2);
      }
    }
  }

  /** Join arcs point to higher supernodes (`up`), split arcs to lower ones. */
  predicate Directed(arcs: seq<Id>, up: bool)
  {
    forall v :: 0 <= v < |arcs| && !NoSuchElement(arcs[v]) ==>
      if up then MaskedIndex(arcs[v]) > v else MaskedIndex(arcs[v]) < v
  }

  lemma {:induction false} ChainDirected(arcs: seq<Id>, up: bool, v: nat, k: nat)
    requires ValidArcs(arcs) && Directed(arcs, up) && v < |arcs|
    ensures var y := Chain(arcs, arcs[v], k);
      !NoSuchElement(y) ==> if up then MaskedIndex(y) > v else MaskedIndex(y) < v
  {
    if k > 0 {
      ChainDirected(arcs, up, v, k - 1);
    }
  }

  /** Compression keeps the direction of every arc: it never creates a cycle. */
  lemma CompressKeepsDirection(contourTreeSuperarcs: seq<Id>, arcs: seq<Id>, active: seq<nat>, up: bool)
    requires |contourTreeSuperarcs| == |arcs| && ValidArcs(arcs) && ValidActive(active, |arcs|)
    requires Directed(arcs, up)
    ensures Directed(Compress(contourTreeSuperarcs, arcs, active), up)
  {
    var r := Compress(contourTreeSuperarcs, arcs, active);
    forall v | 0 <= v < |r| && !NoSuchElement(r[v])
      ensures if up then MaskedIndex(r[v]) > v else MaskedIndex(r[v]) < v
    {
      CompressFollowsChain(contourTreeSuperarcs, arcs, active, v);
      var k: nat :| r[v] == Chain(arcs, arcs[v], k);
      ChainDirected(arcs, up, v, k);
    }
  }

  /** Supernodes outside the active list, and arcs to the infinite root, are left as they are. */
  lemma {:induction false} CompressKeepsInactiveAndRoots(contourTreeSuperarcs: seq<Id>, arcs: seq<Id>, active: seq<nat>, v: nat)
    requires |contourTreeSuperarcs| == |arcs| && ValidArcs(arcs) && ValidActive(active, |arcs|)
    requires v < |arcs| && (v !in active || NoSuchElement(arcs[v]))
    ensures Compress(contourTreeSuperarcs, arcs, active)[v] == arcs[v]
    decreases |active|
  {
    if active != [] {
      var prefix := active[..|active| - 1];
      assert v !in active ==> v !in prefix;
      CompressKeepsInactiveAndRoots(contourTreeSuperarcs, arcs, prefix, v);
    }
  }

  /**
    A round is a no-op once no active arc can jump: every active arc is the
    sentinel or points at a supernode without a contour-tree superarc.
  */
  lemma {:induction false} CompressFixedPoint(contourTreeSuperarcs: seq<Id>, arcs: seq<Id>, active: seq<nat>)
    requires |contourTreeSuperarcs| == |arcs| && ValidArcs(arcs) && ValidActive(active, |arcs|)
    requires forall k :: 0 <= k < |active| ==>
      NoSuchElement(arcs[active[k]]) || NoSuchElement(contourTreeSuperarcs[MaskedIndex(arcs[active[k]])])
    ensures Compress(contourTreeSuperarcs, arcs, active) == arcs
    decreases |active|
  {
    if active != [] {
      CompressFixedPoint(contourTreeSuperarcs, arcs, active[..|active| - 1]);
    }
  }

  /**
    The serial loop depends on the order of the active list: on the chain
    0 -> 1 -> 2 -> 3 -> root with every contour-tree superarc set, the order
    [0, 1] moves supernode 0 to 2, the order [1, 0] moves it to 3.
  */
  lemma CompressOrderMatters()
    ensures var ct := [Plain(0), Plain(0), Plain(0), Plain(0)];
      var arcs := [Plain(1), Plain(2), Plain(3), NO_SUCH_ELEMENT];
      Compress(ct, arcs, [0, 1])[0] == Plain(2) && Compress(ct, arcs, [1, 0])[0] == Plain(3)
  {
    var ct := [Plain(0), Plain(0), Plain(0), Plain(0)];
    var arcs := [Plain(1), Plain(2), Plain(3), NO_SUCH_ELEMENT];
    assert [0, 1][..1] == [0] && [1, 0][..1] == [1] && [0][..0] == [] && [1][..0] == [];
    assert Compress(ct, arcs, [0]) == [Plain(2), Plain(2), Plain(3), NO_SUCH_ELEMENT];
    assert Compress(ct, arcs, [1]) == [Plain(1), Plain(3), Plain(3), NO_SUCH_ELEMENT];
  }
}
