/** Positions in the runnable order, extended with the two sentinels the
    tree processor uses: `Infinity` (no minimum) and `1 - Infinity` (no
    maximum). */
module Bounds {
  import opened Wrappers

  datatype Ext = NegInf | Fin(n: int) | PosInf

  /** The usual order on the extended integers. */
  predicate Le(a: Ext, b: Ext) {
    a.NegInf? || b.PosInf? || (a.Fin? && b.Fin? && a.n <= b.n)
  }

  predicate Less(a: Ext, b: Ext) {
    !Le(b, a)
  }

  /** `Math.min` on extended integers. */
  function Min(a: Ext, b: Ext): (r: Ext)
    ensures Le(r, a) && Le(r, b)
    ensures r == a || r == b
  {
    if Le(a, b) then a else b
  }

  /** `Math.max` on extended integers. */
  function Max(a: Ext, b: Ext): (r: Ext)
    ensures Le(a, r) && Le(b, r)
    ensures r == a || r == b
  {
    if Le(a, b) then b else a
  }

  /** `x - 1`; the infinities absorb the subtraction. */
  function Pred(a: Ext): Ext {
    match a
    case Fin(n) => Fin(n - 1)
    case _ => a
  }

  /** The lower bound a node starts with: its own position, or +∞. */
  function StartingMin(executableIndex: Option<nat>): (r: Ext)
    ensures r != NegInf
    ensures r == PosInf <==> executableIndex.None?
    ensures executableIndex.Some? ==> r == Fin(executableIndex.value)
  {
    if executableIndex.None? then PosInf else Fin(executableIndex.value)
  }

  /** The upper bound a node starts with: its own position, or −∞. */
  function StartingMax(executableIndex: Option<nat>): (r: Ext)
    ensures r != PosInf
    ensures r == NegInf <==> executableIndex.None?
    ensures executableIndex.Some? ==> r == Fin(executableIndex.value)
  {
    if executableIndex.None? then NegInf else Fin(executableIndex.value)
  }

  /** A new segment starts between two elements exactly when both carry an
      explicit position and more than one position lies between them. */
  predicate IsBoundary(lastMax: Ext, minIndex: Ext) {
    lastMax != NegInf && minIndex != PosInf && Less(lastMax, Pred(minIndex))
  }

  /** The sentinels never open a segment: only two explicit positions with
      a gap of more than one between them do. */
  lemma BoundaryNeedsGap(lastMax: Ext, minIndex: Ext)
    ensures IsBoundary(lastMax, minIndex) <==>
      lastMax.Fin? && minIndex.Fin? && lastMax.n + 1 < minIndex.n
  {
  }
}
