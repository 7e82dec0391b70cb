/**
  The `Mask` worklet subsamples a cell set by a stride: `Run` records the ids
  `0, stride, 2 * stride, ...` of the cells it keeps, `numberOfCells / stride`
  of them, and wraps them with the full cell set into a permutation cell set;
  `ProcessCellField` then gathers a cell field at exactly those ids.
*/
module StrideMask {
  import opened Arith

  /** The input cell set, seen only through its name and its number of cells. */
  datatype CellSet = CellSet(name: string, numberOfCells: nat)

  /** A cell set that uses the cells of `fullCellSet` listed in `validCellIds`, in that order. */
  datatype CellSetPermutation = CellSetPermutation(validCellIds: seq<nat>, fullCellSet: CellSet, name: string)

  /** Every id below `(n / s) * s` is below `n`. */
  lemma FloorMultipleAtMost(n: nat, s: nat)
    requires s > 0
    ensures (n / s) * s <= n && n - (n / s) * s == n % s
  {
    assert n == (n / s) * s + n % s;
  }

  /**
    `Run`'s stride array: `n / s` cells starting at 0 and `s` apart.
    The ids are increasing, every one names a cell of the input, and the
    k-th one is `k * s`.
  */
  function StrideIds(n: nat, s: nat): (ids: seq<nat>)
    requires s > 0
    ensures |ids| == n / s
    ensures forall k :: 0 <= k < |ids| ==> ids[k] == k * s && ids[k] < n
    ensures forall j, k :: 0 <= j < k < |ids| ==> ids[j] < ids[k]
  {
    var ids := seq(n / s, (k: int) requires 0 <= k < n / s => (k * s) as nat);
    forall k | 0 <= k < |ids| ensures ids[k] < n {
      FloorMultipleAtMost(n, s);
      MulStep(k, n / s, s);
    }
    forall j, k | 0 <= j < k < |ids| ensures ids[j] < ids[k] {
      MulStep(j, k, s);
    }
    ids
  }

  /**
    A cell is kept exactly when its id is a multiple of the stride below
    `(n / s) * s`; the division rounds down, so the cells of a last, partial
    block of `s` cells are not among them.
  */
  lemma {:induction false} StrideIdsMembers(n: nat, s: nat, x: nat)
    requires s > 0
    ensures x in StrideIds(n, s) <==> x % s == 0 && x < (n / s) * s
  {
    var ids := StrideIds(n, s);
    if x in ids {
      var k :| 0 <= k < |ids| && ids[k] == x;
      DivUnique(x, s, k, 0);
      MulStep(k, n / s, s);
    }
    if x % s == 0 && x < (n / s) * s {
      var k := x / s;
      assert x == k * s;
      if k >= n / s {
        if k > n / s {
          MulStep(n / s, k, s);
        }
        assert false;
      }
      assert ids[k] == x;
    }
  }

  /** When `s` does not divide `n`, the multiple `(n / s) * s` is a cell of the input yet not kept. */
  lemma StrideOmitsPartialBlock(n: nat, s: nat)
    requires s > 0 && n % s != 0
    ensures var last := (n / s) * s;
      last < n && last % s == 0 && last !in StrideIds(n, s)
  {
    var last := (n / s) * s;
    FloorMultipleAtMost(n, s);
    DivUnique(last, s, n / s, 0);
    StrideIdsMembers(n, s, last);
  }

  /**
    The worklet object. Its only state is the list of kept cell ids, which
    `Run` replaces and `ProcessCellField` reads.
  */
  class Mask {
    var validCellIds: seq<nat>

    /** A fresh worklet keeps no cell. */
    constructor ()
      ensures validCellIds == []
    {
      validCellIds := [];
    }

    /**
      Replaces the kept ids by every `stride`-th cell id of `cellSet` and
      returns the permutation cell set over them, named as the input.
    */
    method Run(cellSet: CellSet, stride: int) returns (r: CellSetPermutation)
      requires stride > 0
      modifies this
      ensures validCellIds == StrideIds(cellSet.numberOfCells, stride)
      ensures r == CellSetPermutation(validCellIds, cellSet, cellSet.name)
      ensures forall k :: 0 <= k < |r.validCellIds| ==> r.validCellIds[k] < r.fullCellSet.numberOfCells
    {
      var numberOfInputCells := cellSet.numberOfCells;
      var numberOfSampledCells := numberOfInputCells / stride;
      var strideArray := StrideIds(numberOfInputCells, stride);
      assert |strideArray| == numberOfSampledCells;
      validCellIds := strideArray;
      r := CellSetPermutation(validCellIds, cellSet, cellSet.name);
    }

    /** The kept ids all index a field of `n` values. */
    predicate IdsBelow(n: nat)
      reads this
    {
      forall k :: 0 <= k < |validCellIds| ==> validCellIds[k] < n
    }

    /** The cell field restricted to the kept cells, in the order of the kept ids. */
    function ProcessCellField<T>(inField: seq<T>): (result: seq<T>)
      requires IdsBelow(|inField|)
      reads this
      ensures |result| == |validCellIds|
      ensures forall k :: 0 <= k < |result| ==> result[k] == inField[validCellIds[k]]
    {
      var ids := validCellIds;
      seq(|ids|, (k: int) requires 0 <= k < |ids| => inField[ids[k]])
    }
  }

  /** After `Run` with stride `s`, the field is sampled at every `s`-th value. */
  lemma ProcessStridedField<T>(m: Mask, inField: seq<T>, s: nat)
    requires s > 0 && m.validCellIds == StrideIds(|inField|, s)
    ensures m.IdsBelow(|inField|)
    ensures var result := m.ProcessCellField(inField);
      |result| == |inField| / s && forall k :: 0 <= k < |result| ==> result[k] == inField[k * s]
  {
  }

  /** With stride 1 every cell is kept and the field comes back unchanged. */
  lemma ProcessUnitStrideIsIdentity<T>(m: Mask, inField: seq<T>)
    requires m.validCellIds == StrideIds(|inField|, 1)
    ensures m.IdsBelow(|inField|)
    ensures m.ProcessCellField(inField) == inField
  {
    var result := m.ProcessCellField(inField);
    assert |result| == |inField|;
    forall k | 0 <= k < |result| ensures result[k] == inField[k] {
      assert m.validCellIds[k] == k * 1;
    }
  }

  /** Dividing twice rounds down like dividing once by the product. */
  lemma DivDiv(n: nat, a: nat, b: nat)
    requires a > 0 && b > 0
    ensures (n / a) / b == n / (a * b)
  {
    var q := n / a;
    var r1 := n % a;
    var r2 := q % b;
    assert n == q * a + r1;
    assert q == (q / b) * b + r2;
    assert n == (q / b) * (a * b) + (r2 * a + r1) by {
      assert q * a == ((q / b) * b) * a + r2 * a;
      assert ((q / b) * b) * a == (q / b) * (a * b);
    }
    assert r2 * a + r1 < a * b by {
      if r2 < b - 1 {
        MulStep(r2, b - 1, a);
      }
      assert r2 * a <= (b - 1) * a;
      assert (b - 1) * a == a * b - a;
    }
    DivUnique(n, a * b, q / b, r2 * a + r1);
  }

  /**
    Masking a field with stride `a` and masking the result with stride `b`
    samples the same cells as one mask with stride `a * b`.
  */
  lemma StridesCompose<T>(m1: Mask, m2: Mask, m: Mask, inField: seq<T>, a: nat, b: nat)
    requires a > 0 && b > 0
    requires m1.validCellIds == StrideIds(|inField|, a)
    requires m2.validCellIds == StrideIds(|inField| / a, b)
    requires m.validCellIds == StrideIds(|inField|, a * b)
    ensures m1.IdsBelow(|inField|) && m.IdsBelow(|inField|)
    ensures m2.IdsBelow(|m1.ProcessCellField(inField)|)
    ensures m2.ProcessCellField(m1.ProcessCellField(inField)) == m.ProcessCellField(inField)
  {
    var once := m1.ProcessCellField(inField);
    var twice := m2.ProcessCellField(once);
    var direct := m.ProcessCellField(inField);
    DivDiv(|inField|, a, b);
    assert |twice| == |direct|;
    forall k | 0 <= k < |twice| ensures twice[k] == direct[k] {
      assert twice[k] == once[k * b] == inField[(k * b) * a];
      assert (k * b) * a == k * (a * b);
    }
  }
}
