/** The lane comparators of logic.go. Each returns a flag word: 0x80 in every
    lane where the comparison holds and 0x00 elsewhere. */
module Logic {
  import opened Words
  import opened LaneFacts

  /** The high bit of every lane. */
  const HighBits: Word := FromBits(0x8080_8080_8080_8080)

  lemma HighBitsLanes()
    ensures forall k: LaneIndex :: HighBits[k] == 0x80
  {
  }

  /** `(x | HighBits) - (y &^ HighBits)`, the biased subtraction shared by the
      comparators and the byte subtractions: every lane of the left operand
      has its high bit set and every lane of the right operand has it clear,
      so no lane borrows from the next. */
  lemma BiasedSubtraction(x: Word, y: Word)
    ensures forall k: LaneIndex ::
      Sub(Or(x, HighBits), AndNot(y, HighBits))[k] == (x[k] | 0x80) - (y[k] & 0x7F)
  {
    HighBitsLanes();
    var l, r := Or(x, HighBits), AndNot(y, HighBits);
    forall j: LaneIndex
      ensures r[j] <= l[j]
    {
      BiasedLane(x[j], y[j]);
    }
    SubWithoutBorrow(l, r);
  }

  lemma BiasedLane(p: Byte, q: Byte)
    ensures q & !0x80 <= p | 0x80
    ensures q & !0x80 == q & 0x7F
  {
  }

  function HighBitWhereLess(v: Word, cm: Word): Word
  {
    var d := Sub(Or(v, HighBits), AndNot(cm, HighBits));
    var sel := And(Or(And(v, Xor(v, cm)), AndNot(d, Xor(v, cm))), HighBits);
    var hbit := Xor(sel, HighBits);
    And(hbit, HighBits)
  }

  function HighBitWhereGreater(v: Word, cm: Word): Word
  {
    var d := Sub(Or(cm, HighBits), AndNot(v, HighBits));
    var sel := And(Or(And(cm, Xor(cm, v)), AndNot(d, Xor(cm, v))), HighBits);
    var hbit := Xor(sel, HighBits);
    And(hbit, HighBits)
  }

  function HighBitWhereEqual(v: Word, cm: Word): Word
  {
    var x := Xor(v, cm);
    var y := Or(Add(And(x, FromBits(0x7F7F_7F7F_7F7F_7F7F)), FromBits(0x7F7F_7F7F_7F7F_7F7F)), x);
    var hi := And(Not(y), HighBits);
    And(hi, HighBits)
  }

  /** One lane of the less-than formula: the high bit of the biased
      difference decides when the high bits of p and q agree, and the high
      bit of p decides when they differ. */
  lemma LessByte(p: Byte, q: Byte)
    ensures ((((p & (p ^ q)) | (((p | 0x80) - (q & 0x7F)) & !(p ^ q))) & 0x80) ^ 0x80) & 0x80
            == if p < q then 0x80 else 0
  {
  }

  lemma HighBitWhereLessLane(v: Word, cm: Word, k: LaneIndex)
    ensures HighBitWhereLess(v, cm)[k] == if v[k] < cm[k] then 0x80 else 0
  {
    HighBitsLanes();
    BiasedSubtraction(v, cm);
    LessByte(v[k], cm[k]);
  }

  /** Lane k of `HighBitWhereLess(v, cm)` is 0x80 exactly when v_k < cm_k,
      for any cm (not only a broadcast byte). */
  lemma HighBitWhereLessLanes(v: Word, cm: Word)
    ensures forall k: LaneIndex :: HighBitWhereLess(v, cm)[k] == if v[k] < cm[k] then 0x80 else 0
  {
    forall k: LaneIndex
      ensures HighBitWhereLess(v, cm)[k] == if v[k] < cm[k] then 0x80 else 0
    {
      HighBitWhereLessLane(v, cm, k);
    }
  }

  lemma HighBitWhereGreaterLane(v: Word, cm: Word, k: LaneIndex)
    ensures HighBitWhereGreater(v, cm)[k] == if v[k] > cm[k] then 0x80 else 0
  {
    HighBitsLanes();
    BiasedSubtraction(cm, v);
    LessByte(cm[k], v[k]);
  }

  /** Lane k of `HighBitWhereGreater(v, cm)` is 0x80 exactly when v_k > cm_k. */
  lemma HighBitWhereGreaterLanes(v: Word, cm: Word)
    ensures forall k: LaneIndex :: HighBitWhereGreater(v, cm)[k] == if v[k] > cm[k] then 0x80 else 0
  {
    forall k: LaneIndex
      ensures HighBitWhereGreater(v, cm)[k] == if v[k] > cm[k] then 0x80 else 0
    {
      HighBitWhereGreaterLane(v, cm, k);
    }
  }

  /** One lane of the equality formula: adding 0x7F to the low seven bits of
      x sets the high bit unless they are all zero. */
  lemma EqualByte(x: Byte)
    ensures (x & 0x7F) <= 0xFF - 0x7F
    ensures (!(((x & 0x7F) + 0x7F) | x) & 0x80) & 0x80 == if x == 0 then 0x80 else 0
  {
  }

  lemma HighBitWhereEqualLane(v: Word, cm: Word, k: LaneIndex)
    ensures HighBitWhereEqual(v, cm)[k] == if v[k] == cm[k] then 0x80 else 0
  {
    HighBitsLanes();
    var x := Xor(v, cm);
    var low := FromBits(0x7F7F_7F7F_7F7F_7F7F);
    assert forall j: LaneIndex :: low[j] == 0x7F;
    forall j: LaneIndex
      ensures low[j] <= 0xFF - And(x, low)[j]
    {
      EqualByte(x[j]);
    }
    AddWithoutCarry(And(x, low), low);
    EqualByte(x[k]);
    assert x[k] == 0 <==> v[k] == cm[k];
  }

  /** Lane k of `HighBitWhereEqual(v, cm)` is 0x80 exactly when v_k == cm_k. */
  lemma HighBitWhereEqualLanes(v: Word, cm: Word)
    ensures forall k: LaneIndex :: HighBitWhereEqual(v, cm)[k] == if v[k] == cm[k] then 0x80 else 0
  {
    forall k: LaneIndex
      ensures HighBitWhereEqual(v, cm)[k] == if v[k] == cm[k] then 0x80 else 0
    {
      HighBitWhereEqualLane(v, cm, k);
    }
  }

  /** Every comparator returns a flag word: nothing outside the high bits,
      `result &^ HighBits == 0`. */
  lemma ComparatorsAreFlagWords(v: Word, cm: Word)
    ensures IsFlagWord(HighBitWhereLess(v, cm))
    ensures IsFlagWord(HighBitWhereGreater(v, cm))
    ensures IsFlagWord(HighBitWhereEqual(v, cm))
    ensures AndNot(HighBitWhereLess(v, cm), HighBits) == Fill(0)
    ensures AndNot(HighBitWhereGreater(v, cm), HighBits) == Fill(0)
    ensures AndNot(HighBitWhereEqual(v, cm), HighBits) == Fill(0)
  {
    HighBitsLanes();
    HighBitWhereLessLanes(v, cm);
    HighBitWhereGreaterLanes(v, cm);
    HighBitWhereEqualLanes(v, cm);
  }

  /** Greater is less with the operands exchanged. */
  lemma GreaterMirrorsLess(v: Word, cm: Word)
    ensures HighBitWhereGreater(v, cm) == HighBitWhereLess(cm, v)
  {
    HighBitWhereGreaterLanes(v, cm);
    HighBitWhereLessLanes(cm, v);
  }

  /** In every lane exactly one of less, equal and greater holds: the three
      results are pairwise disjoint and together cover HighBits. */
  lemma ComparatorTrichotomy(v: Word, cm: Word)
    ensures And(HighBitWhereLess(v, cm), HighBitWhereEqual(v, cm)) == Fill(0)
    ensures And(HighBitWhereLess(v, cm), HighBitWhereGreater(v, cm)) == Fill(0)
    ensures And(HighBitWhereEqual(v, cm), HighBitWhereGreater(v, cm)) == Fill(0)
    ensures Or(Or(HighBitWhereLess(v, cm), HighBitWhereEqual(v, cm)), HighBitWhereGreater(v, cm)) == HighBits
  {
    HighBitsLanes();
    HighBitWhereLessLanes(v, cm);
    HighBitWhereGreaterLanes(v, cm);
    HighBitWhereEqualLanes(v, cm);
  }
}
