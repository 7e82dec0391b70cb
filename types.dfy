/**
  Index values of the augmented contour tree.

  The library packs a plain array index and a handful of flag bits into one
  64-bit id; `maskedIndex` strips the flags and `noSuchElement` tests the
  sentinel flag. The model keeps the two parts apart: an `Id` is a plain index
  together with the set of flags that are raised on it. No bit layout is
  re-derived; only the behaviour of the accessors is kept.
*/
module ContourTreeTypes {

  /** The flag bits an id may carry. */
  datatype Flag = NoSuchElementFlag | TerminalFlag | SupernodeFlag | HypernodeFlag | AscendingFlag

  /** An index value: a plain index and the flags raised on it. */
  datatype Id = Id(index: nat, flags: set<Flag>)

  /** A plain index with no flag raised. */
  function Plain(i: nat): (x: Id)
    ensures MaskedIndex(x) == i && !NoSuchElement(x) && !IsTerminal(x)
  {
    Id(i, {})
  }

  /** The "no such element" sentinel. */
  const NO_SUCH_ELEMENT: Id := Id(0, {NoSuchElementFlag})

  /** `noSuchElement(x)`: the sentinel flag is raised on `x`. */
  predicate NoSuchElement(x: Id)
  {
    NoSuchElementFlag in x.flags
  }

  /** `maskedIndex(x)`: `x` with every flag stripped. */
  function MaskedIndex(x: Id): nat
  {
    x.index
  }

  /** The terminal flag is raised on `x`. */
  predicate IsTerminal(x: Id)
  {
    TerminalFlag in x.flags
  }

  /** `x | TERMINAL_ELEMENT`: raises the terminal flag and keeps everything else. */
  function WithTerminal(x: Id): (r: Id)
    ensures MaskedIndex(r) == MaskedIndex(x)
    ensures IsTerminal(r)
    ensures NoSuchElement(r) <==> NoSuchElement(x)
    ensures forall f :: f != TerminalFlag ==> (f in r.flags <==> f in x.flags)
  {
    Id(x.index, x.flags + {TerminalFlag})
  }

  /** A reference into an array of `n` slots: the sentinel, or a masked index below `n`. */
  predicate ValidRef(x: Id, n: nat)
  {
    NoSuchElement(x) || MaskedIndex(x) < n
  }
}
