/**
  The neighbour oracle of a row-major `nRows x nCols` grid triangulated by the
  Freudenthal scheme: every vertex has six incident edges, numbered 0..5
  clockwise from "right" (row, col+1), with rows growing downward. The
  oracle masks out edges that leave the grid, finds the first neighbour on a requested side of the global
  sort order, and summarises the whole neighbourhood as a 6-bit mask whose
  cyclic runs give the out-degree of the vertex.
*/
module Freudenthal2D {
  import opened ContourTreeTypes
  import opened Arith

  /** Number of edges incident to a vertex of the triangulation. */
  const N_INCIDENT_EDGES: nat := 6

  /** Boundary configuration bits: four distinct single bits. */
  const topBit: bv8 := 0x01
  const rightBit: bv8 := 0x02
  const bottomBit: bv8 := 0x04
  const leftBit: bv8 := 0x08

  /** The mask table of the library: the sides of the grid each edge crosses. */
  const StandardMasks: seq<bv8> :=
    [rightBit, rightBit | bottomBit, bottomBit, leftBit, leftBit | topBit, topBit]

  /** Row step of edge `e`. */
  function RowOffset(e: nat): int
    requires e < N_INCIDENT_EDGES
  {
    if e == 1 || e == 2 then 1 else if e == 4 || e == 5 then -1 else 0
  }

  /** Column step of edge `e`. */
  function ColOffset(e: nat): int
    requires e < N_INCIDENT_EDGES
  {
    if e == 0 || e == 1 then 1 else if e == 3 || e == 4 then -1 else 0
  }

  /** The edge that leads back: edges come in opposite pairs `e`, `e + 3 (mod 6)`. */
  function Opposite(e: nat): (o: nat)
    requires e < N_INCIDENT_EDGES
    ensures o < N_INCIDENT_EDGES
    ensures RowOffset(o) == -RowOffset(e) && ColOffset(o) == -ColOffset(e)
  {
    (e + 3) % 6
  }

  /** The sides of the grid an edge leaves through when started on that side. */
  function CrossedSides(e: nat): bv8
    requires e < N_INCIDENT_EDGES
  {
    (if ColOffset(e) == 1 then rightBit else 0)
    | (if ColOffset(e) == -1 then leftBit else 0)
    | (if RowOffset(e) == 1 then bottomBit else 0)
    | (if RowOffset(e) == -1 then topBit else 0)
  }

  /** What the oracle needs of a mask table: every edge's mask holds the sides it crosses. */
  predicate MasksGuardGrid(masks: seq<bv8>)
  {
    |masks| == N_INCIDENT_EDGES &&
    forall e :: 0 <= e < N_INCIDENT_EDGES ==> masks[e] & CrossedSides(e) == CrossedSides(e)
  }

  /** `1 << e`. */
  function BitMask(e: nat): (b: bv8)
    requires e < 8
  {
    match e
    case 0 => 0x01 case 1 => 0x02 case 2 => 0x04 case 3 => 0x08
    case 4 => 0x10 case 5 => 0x20 case 6 => 0x40 case 7 => 0x80
  }

  /** Bit `e` of `m`. */
  predicate Bit(m: bv8, e: nat)
    requires e < 8
  {
    m & BitMask(e) != 0
  }

  /** A mask without bits 6 and 7 fits in six bits. */
  lemma SixBits(m: bv8)
    requires !Bit(m, 6) && !Bit(m, 7)
    ensures m < 0x40
  {
  }

  /** A six-bit mask is zero exactly when none of its six bits is set. */
  lemma SixBitsZero(m: bv8)
    requires m < 0x40
    ensures m == 0 <==> forall e :: 0 <= e < N_INCIDENT_EDGES ==> !Bit(m, e)
  {
    if m != 0 {
      assert Bit(m, 0) || Bit(m, 1) || Bit(m, 2) || Bit(m, 3) || Bit(m, 4) || Bit(m, 5);
    }
  }

  /** A bit of `a | b` is a bit of `a` or of `b`; `BitMask(k)` has bit `k` only. */
  lemma BitOfOr(a: bv8, k: nat)
    requires k < 8
    ensures forall e :: 0 <= e < 8 ==> (Bit(a | BitMask(k), e) <==> Bit(a, e) || e == k)
  {
  }

  /** True on the side of the order that is being searched: above for `up`, below otherwise. */
  predicate OnSide(up: bool, nbrIndex: nat, sortIndex: nat)
  {
    if up then nbrIndex > sortIndex else nbrIndex < sortIndex
  }

  /**
    Neighbourhood bits whose predecessor (cyclically, edge `i + 5 mod 6`) is
    clear: the first edge of every maximal cyclic run of set bits. Defined by a
    six-bit rotation, independently of the edge-by-edge tests of the library.
  */
  function RunStarts(nm: bv8): bv8
  {
    var six := nm & 0x3F;
    six & !(((six << 1) | (six >> 5)) & 0x3F)
  }

  /** Number of set bits among bits 0..5. */
  function PopCount6(m: bv8): nat
  {
    (if Bit(m, 0) then 1 else 0) + (if Bit(m, 1) then 1 else 0) + (if Bit(m, 2) then 1 else 0)
    + (if Bit(m, 3) then 1 else 0) + (if Bit(m, 4) then 1 else 0) + (if Bit(m, 5) then 1 else 0)
  }

  /** Bit `i` of `RunStarts(nm)` is set exactly when bit `i` of `nm` is set and bit `i + 5 (mod 6)` is clear. */
  lemma RunStartsBits(nm: bv8)
    ensures forall i :: 0 <= i < N_INCIDENT_EDGES ==>
      (Bit(RunStarts(nm), i) <==> Bit(nm, i) && !Bit(nm, (i + 5) % 6))
    ensures RunStarts(nm) < 0x40
  {
    assert Bit(RunStarts(nm), 0) <==> Bit(nm, 0) && !Bit(nm, 5);
    assert Bit(RunStarts(nm), 1) <==> Bit(nm, 1) && !Bit(nm, 0);
    assert Bit(RunStarts(nm), 2) <==> Bit(nm, 2) && !Bit(nm, 1);
    assert Bit(RunStarts(nm), 3) <==> Bit(nm, 3) && !Bit(nm, 2);
    assert Bit(RunStarts(nm), 4) <==> Bit(nm, 4) && !Bit(nm, 3);
    assert Bit(RunStarts(nm), 5) <==> Bit(nm, 5) && !Bit(nm, 4);
  }

  /** A six-bit mask that is neither empty nor full has at least one run; an empty one has none. */
  lemma RunCountZeroIffEmpty(nm: bv8)
    requires nm < 0x40 && nm != 0x3F
    ensures PopCount6(RunStarts(nm)) == 0 <==> nm == 0
  {
    assert nm != 0 ==> RunStarts(nm) != 0;
    assert RunStarts(nm) < 0x40;
  }

  /** Six cyclic positions hold at most three separate runs. */
  lemma RunCountAtMostThree(nm: bv8)
    ensures PopCount6(RunStarts(nm)) <= 3
  {
    var c := RunStarts(nm);
    assert !(Bit(c, 0) && Bit(c, 1)) && !(Bit(c, 1) && Bit(c, 2)) && !(Bit(c, 2) && Bit(c, 3));
    assert !(Bit(c, 3) && Bit(c, 4)) && !(Bit(c, 4) && Bit(c, 5)) && !(Bit(c, 5) && Bit(c, 0));
  }

  /** A cell `(r, c)` of the grid has a row-major id in `[0, rows * cols)`. */
  lemma CellInRange(r: int, c: int, rows: nat, cols: nat)
    requires 0 <= r < rows && 0 <= c < cols
    ensures 0 <= r * cols + c < rows * cols
  {
    MulStep(r, rows, cols);
    MulStep(-1, r, cols);
  }

  /**
    The second half of `GetNeighbourComponentsMaskAndDegree`: from the
    neighbourhood mask, the component mask (one bit per cyclic run of set
    bits, at the run's first edge) and the out-degree (the number of runs). A
    full neighbourhood is one component with an empty component mask.
  */
  method ComponentsOfNeighbourhood(neighbourhoodMask: bv8) returns (neighbourComponentMask: bv8, outDegree: nat)
    requires neighbourhoodMask < 0x40
    ensures neighbourhoodMask == 0x3F ==> neighbourComponentMask == 0 && outDegree == 1
    ensures neighbourhoodMask != 0x3F ==>
      neighbourComponentMask == RunStarts(neighbourhoodMask) && outDegree == PopCount6(neighbourComponentMask)
    ensures neighbourComponentMask < 0x40 && outDegree <= 3
  {
    outDegree := 0;
    neighbourComponentMask := 0;
    if neighbourhoodMask == 0x3F {
      outDegree := 1;
    } else {
      ghost var runs := RunStarts(neighbourhoodMask);
      ghost var counted := 0;
      if neighbourhoodMask & 0x30 == 0x20 {
        outDegree := outDegree + 1;
        neighbourComponentMask := neighbourComponentMask | ((1 as bv8) << 5);
      }
      counted := counted + (if Bit(runs, 5) then 1 else 0);
      assert neighbourComponentMask == runs & 0x20 && outDegree == counted;
      if neighbourhoodMask & 0x18 == 0x10 {
        outDegree := outDegree + 1;
        neighbourComponentMask := neighbourComponentMask | ((1 as bv8) << 4);
      }
      counted := counted + (if Bit(runs, 4) then 1 else 0);
      assert neighbourComponentMask == runs & 0x30 && outDegree == counted;
      if neighbourhoodMask & 0x0C == 0x08 {
        outDegree := outDegree + 1;
        neighbourComponentMask := neighbourComponentMask | ((1 as bv8) << 3);
      }
      counted := counted + (if Bit(runs, 3) then 1 else 0);
      assert neighbourComponentMask == runs & 0x38 && outDegree == counted;
      if neighbourhoodMask & 0x06 == 0x04 {
        outDegree := outDegree + 1;
        neighbourComponentMask := neighbourComponentMask | ((1 as bv8) << 2);
      }
      counted := counted + (if Bit(runs, 2) then 1 else 0);
      assert neighbourComponentMask == runs & 0x3C && outDegree == counted;
      if neighbourhoodMask & 0x03 == 0x02 {
        outDegree := outDegree + 1;
        neighbourComponentMask := neighbourComponentMask | ((1 as bv8) << 1);
      }
      counted := counted + (if Bit(runs, 1) then 1 else 0);
      assert neighbourComponentMask == runs & 0x3E && outDegree == counted;
      if neighbourhoodMask & 0x21 == 0x01 {
        outDegree := outDegree + 1;
        neighbourComponentMask := neighbourComponentMask | ((1 as bv8) << 0);
      }
      counted := counted + (if Bit(runs, 0) then 1 else 0);
      assert neighbourComponentMask == runs & 0x3F && outDegree == counted;
      RunCountAtMostThree(neighbourhoodMask);
    }
  }

  /**
    The mesh seen by the contour-tree code: grid shape, how many incident
    edges to search, the orientation (join or split), the sort index of every
    vertex and the boundary mask of every edge. Every query leaves it as it is.
  */
  datatype Mesh = Mesh(nRows: nat, nCols: nat, nIncidentEdges: nat, getMax: bool,
                       sortIndices: seq<nat>, edgeBoundaryDetectionMasks: seq<bv8>)
  {
    predicate Valid()
    {
      nRows > 0 && nCols > 0 && |sortIndices| == nRows * nCols &&
      nIncidentEdges <= N_INCIDENT_EDGES && MasksGuardGrid(edgeBoundaryDetectionMasks)
    }

    function NumVertices(): nat
    {
      nRows * nCols
    }

    /** `vertexRow`: row of a row-major vertex id. */
    function VertexRow(v: int): int
      requires nCols > 0
    {
      v / nCols
    }

    /** `vertexColumn`: column of a row-major vertex id. */
    function VertexColumn(v: int): int
      requires nCols > 0
    {
      v % nCols
    }

    /** Every vertex of the grid lies in a row and a column of it. */
    lemma VertexInGrid(v: int)
      requires Valid() && 0 <= v < NumVertices()
      ensures 0 <= VertexRow(v) < nRows && 0 <= VertexColumn(v) < nCols
      ensures v == VertexRow(v) * nCols + VertexColumn(v)
    {
      assert v == (v / nCols) * nCols + v % nCols;
      MulStep(nRows - 1, v / nCols, nCols);
      MulStep(v / nCols, 0, nCols);
    }

    /** The number of incident edges of every vertex of the triangulation. */
    function GetMaxNumberOfNeighbours(): (r: nat)
      ensures r == N_INCIDENT_EDGES && r == |StandardMasks|
      ensures Valid() ==> r == |edgeBoundaryDetectionMasks|
    {
      N_INCIDENT_EDGES
    }

    /**
      `GetNeighbourIndex`: id of the neighbour across edge `edgeNo`, one grid
      step away by the edge's row and column offsets.
    */
    function GetNeighbourIndex(vertex: int, edgeNo: nat): (nbr: int)
      requires nCols > 0 && edgeNo < N_INCIDENT_EDGES
      ensures nbr == (VertexRow(vertex) + RowOffset(edgeNo)) * nCols + VertexColumn(vertex) + ColOffset(edgeNo)
    {
      var r, c := VertexRow(vertex), VertexColumn(vertex);
      assert vertex == r * nCols + c;
      assert (r + 1) * nCols == r * nCols + nCols;
      assert (r - 1) * nCols == r * nCols - nCols;
      match edgeNo
      case 0 => vertex + 1
      case 1 => vertex + nCols + 1
      case 2 => vertex + nCols
      case 3 => vertex - 1
      case 4 => vertex - nCols - 1
      case 5 => vertex - nCols
    }

    /** Which sides of the grid the vertex lies on, one bit per side. */
    function BoundaryConfig(v: int): (config: bv8)
      requires nCols > 0
      ensures (config & leftBit != 0) <==> VertexColumn(v) == 0
      ensures (config & rightBit != 0) <==> VertexColumn(v) == nCols - 1
      ensures (config & topBit != 0) <==> VertexRow(v) == 0
      ensures (config & bottomBit != 0) <==> VertexRow(v) == nRows - 1
      ensures config & 0xF0 == 0
    {
      (if VertexColumn(v) == 0 then leftBit else 0)
      | (if VertexColumn(v) == nCols - 1 then rightBit else 0)
      | (if VertexRow(v) == 0 then topBit else 0)
      | (if VertexRow(v) == nRows - 1 then bottomBit else 0)
    }

    /** The oracle looks across edge `e` of `v`: the edge's mask misses every side `v` lies on. */
    predicate Examined(v: int, e: nat)
      requires nCols > 0 && |edgeBoundaryDetectionMasks| == N_INCIDENT_EDGES && e < N_INCIDENT_EDGES
    {
      BoundaryConfig(v) & edgeBoundaryDetectionMasks[e] == 0
    }

    /** The neighbour across edge `e` is a vertex of the grid. */
    predicate NeighbourInGrid(v: int, e: nat)
      requires nCols > 0 && e < N_INCIDENT_EDGES
    {
      0 <= VertexRow(v) + RowOffset(e) < nRows && 0 <= VertexColumn(v) + ColOffset(e) < nCols
    }

    /** Masks that guard the grid let the oracle look only at vertices of the grid. */
    lemma ExaminedNeighbourInGrid(v: int, e: nat)
      requires Valid() && 0 <= v < NumVertices() && e < N_INCIDENT_EDGES
      requires Examined(v, e)
      ensures NeighbourInGrid(v, e)
      ensures 0 <= GetNeighbourIndex(v, e) < NumVertices()
    {
      VertexInGrid(v);
      var config := BoundaryConfig(v);
      var mask := edgeBoundaryDetectionMasks[e];
      assert mask & CrossedSides(e) == CrossedSides(e);
      assert config & CrossedSides(e) == 0 by {
        assert config & CrossedSides(e) == (config & mask) & CrossedSides(e);
      }
      if ColOffset(e) == 1 {
        assert CrossedSides(e) & rightBit != 0;
        assert config & rightBit == 0;
      }
      if ColOffset(e) == -1 {
        assert CrossedSides(e) & leftBit != 0;
        assert config & leftBit == 0;
      }
      if RowOffset(e) == 1 {
        assert CrossedSides(e) & bottomBit != 0;
        assert config & bottomBit == 0;
      }
      if RowOffset(e) == -1 {
        assert CrossedSides(e) & topBit != 0;
        assert config & topBit == 0;
      }
      CellInRange(VertexRow(v) + RowOffset(e), VertexColumn(v) + ColOffset(e), nRows, nCols);
    }

    /** With the library's mask table an edge is examined exactly when it stays inside the grid. */
    lemma StandardMasksExamineGrid(v: int, e: nat)
      requires Valid() && edgeBoundaryDetectionMasks == StandardMasks
      requires 0 <= v < NumVertices() && e < N_INCIDENT_EDGES
      ensures Examined(v, e) <==> NeighbourInGrid(v, e)
    {
      VertexInGrid(v);
      var config := BoundaryConfig(v);
      if NeighbourInGrid(v, e) {
        if ColOffset(e) == 1 { assert config & rightBit == 0; }
        if ColOffset(e) == -1 { assert config & leftBit == 0; }
        if RowOffset(e) == 1 { assert config & bottomBit == 0; }
        if RowOffset(e) == -1 { assert config & topBit == 0; }
        assert config & StandardMasks[e] == 0;
      }
      if Examined(v, e) {
        ExaminedNeighbourInGrid(v, e);
      }
    }

    /** Adjacency is symmetric: the opposite edge of an examined edge is examined and leads back. */
    lemma ExaminedEdgeLeadsBack(v: int, e: nat)
      requires Valid() && edgeBoundaryDetectionMasks == StandardMasks
      requires 0 <= v < NumVertices() && e < N_INCIDENT_EDGES && Examined(v, e)
      ensures var w := GetNeighbourIndex(v, e);
        0 <= w < NumVertices() && Examined(w, Opposite(e)) && GetNeighbourIndex(w, Opposite(e)) == v
    {
      VertexInGrid(v);
      ExaminedNeighbourInGrid(v, e);
      var w := GetNeighbourIndex(v, e);
      var re, ce := VertexRow(v) + RowOffset(e), VertexColumn(v) + ColOffset(e);
      DivUnique(re * nCols + ce, nCols, re, ce);
      assert VertexRow(w) == VertexRow(v) + RowOffset(e);
      assert VertexColumn(w) == VertexColumn(v) + ColOffset(e);
      assert NeighbourInGrid(w, Opposite(e));
      StandardMasksExamineGrid(w, Opposite(e));
    }

    /** Distinct examined edges lead to distinct neighbours. */
    lemma ExaminedNeighboursDistinct(v: int, e1: nat, e2: nat)
      requires Valid() && 0 <= v < NumVertices()
      requires e1 < N_INCIDENT_EDGES && e2 < N_INCIDENT_EDGES && e1 != e2
      requires Examined(v, e1) && Examined(v, e2)
      ensures GetNeighbourIndex(v, e1) != GetNeighbourIndex(v, e2)
    {
      ExaminedNeighbourInGrid(v, e1);
      ExaminedNeighbourInGrid(v, e2);
      var re1, ce1 := VertexRow(v) + RowOffset(e1), VertexColumn(v) + ColOffset(e1);
      DivUnique(re1 * nCols + ce1, nCols, re1, ce1);
      var re2, ce2 := VertexRow(v) + RowOffset(e2), VertexColumn(v) + ColOffset(e2);
      DivUnique(re2 * nCols + ce2, nCols, re2, ce2);
    }

    /** Edge `e` of `v` is examined and its neighbour lies on side `up` of `v` in the sort order. */
    predicate Outward(v: int, e: nat, up: bool)
      requires Valid() && 0 <= v < NumVertices() && e < N_INCIDENT_EDGES
      ensures Outward(v, e, up) ==> 0 <= GetNeighbourIndex(v, e) < NumVertices()
    {
      Examined(v, e) &&
      (ExaminedNeighbourInGrid(v, e);
       OnSide(up, sortIndices[GetNeighbourIndex(v, e)], sortIndices[v]))
    }

    /** The lowest-numbered outward edge from `from` on, or `nIncidentEdges` when there is none. */
    function FirstOutwardEdge(v: int, up: bool, from: nat): (e: nat)
      requires Valid() && 0 <= v < NumVertices() && from <= nIncidentEdges
      ensures from <= e <= nIncidentEdges
      ensures e < nIncidentEdges ==> Outward(v, e, up)
      ensures forall k :: from <= k < e ==> !Outward(v, k, up)
      decreases nIncidentEdges - from
    {
      if from == nIncidentEdges then from
      else if Outward(v, from, up) then from
      else FirstOutwardEdge(v, up, from + 1)
    }

    /**
      `GetExtremalNeighbour`: the sort index of the neighbour across the
      first outward edge for the mesh's orientation, or the vertex's own sort
      index with the terminal flag when no edge is outward.
    */
    method GetExtremalNeighbour(vertex: nat) returns (r: Id)
      requires Valid() && vertex < NumVertices()
      ensures var e := FirstOutwardEdge(vertex, getMax, 0);
        if e < nIncidentEdges
        then r == Plain(sortIndices[GetNeighbourIndex(vertex, e)])
        else r == WithTerminal(Plain(sortIndices[vertex]))
      ensures IsTerminal(r) <==> forall k :: 0 <= k < nIncidentEdges ==> !Outward(vertex, k, getMax)
      ensures IsTerminal(r) ==> MaskedIndex(r) == sortIndices[vertex]
      ensures !IsTerminal(r) ==> r.flags == {} && OnSide(getMax, MaskedIndex(r), sortIndices[vertex])
    {
      var sortIndex := sortIndices[vertex];
      var boundaryConfig := BoundaryConfig(vertex);
      var edgeNo := 0;
      while edgeNo < nIncidentEdges
        invariant edgeNo <= nIncidentEdges
        invariant forall k :: 0 <= k < edgeNo ==> !Outward(vertex, k, getMax)
      {
        if boundaryConfig & edgeBoundaryDetectionMasks[edgeNo] == 0 {
          ExaminedNeighbourInGrid(vertex, edgeNo);
          var nbr := GetNeighbourIndex(vertex, edgeNo);
          var nbrIndex := sortIndices[nbr];
          if (if getMax then nbrIndex > sortIndex else nbrIndex < sortIndex) {
            assert Outward(vertex, edgeNo, getMax);
            return Plain(nbrIndex);
          }
        }
        edgeNo := edgeNo + 1;
      }
      return WithTerminal(Plain(sortIndex));
    }

    /** The neighbourhood mask of the edges below `k`: bit `e` set when edge `e` is outward. */
    function OutwardMaskBelow(v: int, up: bool, k: nat): (m: bv8)
      requires Valid() && 0 <= v < NumVertices() && k <= N_INCIDENT_EDGES
      ensures forall e :: 0 <= e < 8 ==> (Bit(m, e) <==> e < k && Outward(v, e, up))
      decreases k
    {
      if k == 0 then 0
      else
        var below := OutwardMaskBelow(v, up, k - 1);
        if Outward(v, k - 1, up) then
          BitOfOr(below, k - 1);
          below | BitMask(k - 1)
        else
          below
    }

    /**
      The first half of `GetNeighbourComponentsMaskAndDegree`: the
      neighbourhood mask, bit `e` set when edge `e` is examined and its
      neighbour lies on side `up` of the vertex.
    */
    method NeighbourhoodMask(vertex: nat, up: bool) returns (neighbourhoodMask: bv8)
      requires Valid() && vertex < NumVertices()
      ensures neighbourhoodMask == OutwardMaskBelow(vertex, up, N_INCIDENT_EDGES)
      ensures forall e :: 0 <= e < N_INCIDENT_EDGES ==> (Bit(neighbourhoodMask, e) <==> Outward(vertex, e, up))
      ensures neighbourhoodMask < 0x40
    {
      var boundaryConfig := BoundaryConfig(vertex);
      neighbourhoodMask := 0;
      var edgeNo := 0;
      while edgeNo < N_INCIDENT_EDGES
        invariant edgeNo <= N_INCIDENT_EDGES
        invariant neighbourhoodMask == OutwardMaskBelow(vertex, up, edgeNo)
      {
        if boundaryConfig & edgeBoundaryDetectionMasks[edgeNo] == 0 {
          ExaminedNeighbourInGrid(vertex, edgeNo);
          var nbr := GetNeighbourIndex(vertex, edgeNo);
          var nbrIndex := sortIndices[nbr];
          if (if up then nbrIndex > sortIndices[vertex] else nbrIndex < sortIndices[vertex]) {
            assert Outward(vertex, edgeNo, up);
            neighbourhoodMask := neighbourhoodMask | BitMask(edgeNo);
          } else {
            assert !Outward(vertex, edgeNo, up);
          }
        } else {
          assert !Outward(vertex, edgeNo, up);
        }
        assert neighbourhoodMask == OutwardMaskBelow(vertex, up, edgeNo + 1);
        edgeNo := edgeNo + 1;
      }
      assert neighbourhoodMask == OutwardMaskBelow(vertex, up, N_INCIDENT_EDGES);
      assert !Bit(neighbourhoodMask, 6) && !Bit(neighbourhoodMask, 7);
      assert neighbourhoodMask < 0x40 by { SixBits(neighbourhoodMask); }
    }

    /**
      `GetNeighbourComponentsMaskAndDegree`: the neighbourhood mask of all six
      edges, reduced to one bit per cyclic run of outward neighbours (the run's
      first edge) and the number of runs, which is the out-degree. A full
      neighbourhood is one component with an empty component mask.
    */
    method GetNeighbourComponentsMaskAndDegree(vertex: nat, getMaxComponents: bool)
      returns (neighbourComponentMask: bv8, outDegree: nat)
      requires Valid() && vertex < NumVertices()
      ensures var nm := OutwardMaskBelow(vertex, getMaxComponents, N_INCIDENT_EDGES);
        nm < 0x40 &&
        (nm == 0x3F ==> neighbourComponentMask == 0 && outDegree == 1) &&
        (nm != 0x3F ==> neighbourComponentMask == RunStarts(nm) && outDegree == PopCount6(RunStarts(nm)))
      ensures neighbourComponentMask < 0x40 && outDegree <= 3
      ensures forall i :: 0 <= i < N_INCIDENT_EDGES ==>
        (Bit(neighbourComponentMask, i) <==>
           OutwardMaskBelow(vertex, getMaxComponents, N_INCIDENT_EDGES) != 0x3F &&
           Outward(vertex, i, getMaxComponents) && !Outward(vertex, (i + 5) % 6, getMaxComponents))
      ensures outDegree == 0 <==> forall e :: 0 <= e < N_INCIDENT_EDGES ==> !Outward(vertex, e, getMaxComponents)
    {
      var neighbourhoodMask := NeighbourhoodMask(vertex, getMaxComponents);
      neighbourComponentMask, outDegree := ComponentsOfNeighbourhood(neighbourhoodMask);
      RunStartsBits(neighbourhoodMask);
      if neighbourhoodMask != 0x3F {
        RunCountZeroIffEmpty(neighbourhoodMask);
      }
      SixBitsZero(neighbourhoodMask);
    }
  }
}
