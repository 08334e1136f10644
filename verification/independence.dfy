/** Lane independence: lane k of every two-operand lane operation depends on
    lane k of its operands alone, although the formulas use full-width
    additions and subtractions whose carries and borrows do cross lanes.
    Each lemma here follows from the per-lane formulas of `Reference`
    (`*Lane`), applied to both pairs of operands: a formula that reads lane k
    alone gives equal results for operands that agree in lane k. */
module Independence {
  import opened Words
  import opened Logic
  import opened Math
  import Reference

  /** Changing any lane other than k of either operand leaves lane k of the
      comparators' results unchanged; follows from the comparators' per-lane
      formulas. */
  lemma ComparatorsAreLaneLocal(v: Word, cm: Word, v': Word, cm': Word, k: LaneIndex)
    requires v[k] == v'[k] && cm[k] == cm'[k]
    ensures HighBitWhereLess(v, cm)[k] == HighBitWhereLess(v', cm')[k]
    ensures HighBitWhereGreater(v, cm)[k] == HighBitWhereGreater(v', cm')[k]
    ensures HighBitWhereEqual(v, cm)[k] == HighBitWhereEqual(v', cm')[k]
  {
    Reference.HighBitWhereLessLane(v, cm, k);
    Reference.HighBitWhereLessLane(v', cm', k);
    Reference.HighBitWhereGreaterLane(v, cm, k);
    Reference.HighBitWhereGreaterLane(v', cm', k);
    Reference.HighBitWhereEqualLane(v, cm, k);
    Reference.HighBitWhereEqualLane(v', cm', k);
  }

  /** Lane k of the two subtractions depends on lane k of the operands
      alone; follows from their per-lane formulas. */
  lemma SubtractionIsLaneLocal(a: Word, b: Word, a': Word, b': Word, k: LaneIndex)
    requires a[k] == a'[k] && b[k] == b'[k]
    ensures SubtractBytesWithWrapping(a, b)[k] == SubtractBytesWithWrapping(a', b')[k]
    ensures SubtractBytesWithMinimum(a, b)[k] == SubtractBytesWithMinimum(a', b')[k]
  {
    Reference.SubtractBytesWithWrappingLane(a, b, k);
    Reference.SubtractBytesWithWrappingLane(a', b', k);
    Reference.SubtractBytesWithMinimumLane(a, b, k);
    Reference.SubtractBytesWithMinimumLane(a', b', k);
  }

  /** Lane k of the two additions depends on lane k of the operands alone;
      follows from their per-lane formulas. */
  lemma AdditionIsLaneLocal(a: Word, b: Word, a': Word, b': Word, k: LaneIndex)
    requires a[k] == a'[k] && b[k] == b'[k]
    ensures AddBytesWithWrapping(a, b)[k] == AddBytesWithWrapping(a', b')[k]
    ensures AddBytesWithMaximum(a, b)[k] == AddBytesWithMaximum(a', b')[k]
  {
    Reference.AddBytesWithWrappingLane(a, b, k);
    Reference.AddBytesWithWrappingLane(a', b', k);
    Reference.AddBytesWithMaximumLane(a, b, k);
    Reference.AddBytesWithMaximumLane(a', b', k);
  }

  /** Lane k of the absolute difference, the minimum and the maximum depends
      on lane k of the operands alone, although the full-width borrow mask
      that drives them does not; follows from their per-lane formulas. */
  lemma SelectionIsLaneLocal(a: Word, b: Word, a': Word, b': Word, k: LaneIndex)
    requires a[k] == a'[k] && b[k] == b'[k]
    ensures AbsoluteDifferenceBetweenBytes(a, b)[k] == AbsoluteDifferenceBetweenBytes(a', b')[k]
    ensures SelectSmallerBytes(a, b)[k] == SelectSmallerBytes(a', b')[k]
    ensures SelectLargerBytes(a, b)[k] == SelectLargerBytes(a', b')[k]
  {
    Reference.AbsoluteDifferenceLane(a, b, k);
    Reference.AbsoluteDifferenceLane(a', b', k);
    Reference.SelectSmallerBytesLane(a, b, k);
    Reference.SelectSmallerBytesLane(a', b', k);
    Reference.SelectLargerBytesLane(a, b, k);
    Reference.SelectLargerBytesLane(a', b', k);
  }

  /** Lane k of the average depends on lane k of the operands alone;
      follows from its per-lane formula. */
  lemma AverageIsLaneLocal(a: Word, b: Word, a': Word, b': Word, k: LaneIndex)
    requires a[k] == a'[k] && b[k] == b'[k]
    ensures AverageBytes(a, b)[k] == AverageBytes(a', b')[k]
  {
    Reference.AverageBytesLane(a, b, k);
    Reference.AverageBytesLane(a', b', k);
  }
}
