/** min_card_pos(positions_mask) of WithEdges
    (libs/hypertrie/src/dice/hypertrie/internal/raw/node/WithEdges.hpp),
    which restricts the search to the positions of a RawKeyPositions bit
    set. Kept apart from Edges so that the bit-vector reasoning of the mask
    stays out of the other proofs. */
module EdgesMasked {
  import E = Edges
  import RawKeyPositions

  /** The sizes seen by min_card_pos(positions_mask): a position outside the
      mask never wins, as if its size were E.SizeMax. */
  function MaskedCards<K, C>(e: E.WithEdges<K, C>, mask: RawKeyPositions.RawKeyPositions): (cards: seq<nat>)
    requires mask.depth == |e.edges|
    ensures |cards| == |e.edges|
  {
    seq(|e.edges|, pos requires 0 <= pos < |e.edges| =>
          if RawKeyPositions.Has(mask, pos) then E.Size(e.edges[pos]) else E.SizeMax)
  }

  /** min_card_pos(positions_mask): the least masked position whose
      collection is smallest among the masked ones. */
  method MinCardPosMasked<K, C>(e: E.WithEdges<K, C>, mask: RawKeyPositions.RawKeyPositions) returns (minPos: nat)
    requires |e.edges| > 0 && E.SizesFit(e)
    requires RawKeyPositions.Valid(mask) && mask.depth == |e.edges|
    ensures minPos == E.FirstMinIndex(MaskedCards(e, mask), |e.edges|)
  {
    ghost var cards := MaskedCards(e, mask);
    minPos := 0;
    var minCard := E.SizeMax;
    for pos := 0 to |e.edges|
      invariant minPos == E.MinIndexSoFar(cards, pos) && minCard == E.MinCardSoFar(cards, pos)
    {
      E.MinSoFarStep(cards, pos);
      if RawKeyPositions.Has(mask, pos) {
        var currentCard := E.Size(e.edges[pos]);
        if currentCard < minCard {
          minCard := currentCard;
          minPos := pos;
        }
      }
    }
  }

  /** min_card_pos(positions_mask) returns 0 when no masked size is below
      SizeMax, in particular when nothing is masked. */
  lemma MaskedMinimumNone<K, C>(e: E.WithEdges<K, C>, mask: RawKeyPositions.RawKeyPositions)
    requires |e.edges| > 0 && E.SizesFit(e) && mask.depth == |e.edges|
    requires forall pos :: 0 <= pos < |e.edges| && RawKeyPositions.Has(mask, pos) ==>
               E.Size(e.edges[pos]) == E.SizeMax
    ensures E.FirstMinIndex(MaskedCards(e, mask), |e.edges|) == 0
  {
    var cards := MaskedCards(e, mask);
    E.FirstMinIndexIsFirstMin(cards, |cards|);
    assert cards[0] == E.SizeMax;
  }

  /** When the masked position pos has a size below SizeMax,
      min_card_pos(positions_mask) returns a masked position whose size is
      least among the masked ones, and no masked position before it is as
      small. */
  lemma MaskedMinimumSome<K, C>(e: E.WithEdges<K, C>, mask: RawKeyPositions.RawKeyPositions, pos: nat)
    requires |e.edges| > 0 && E.SizesFit(e) && mask.depth == |e.edges|
    requires pos < |e.edges| && RawKeyPositions.Has(mask, pos) && E.Size(e.edges[pos]) < E.SizeMax
    ensures var minPos := E.FirstMinIndex(MaskedCards(e, mask), |e.edges|);
            RawKeyPositions.Has(mask, minPos) &&
            (forall q :: 0 <= q < |e.edges| && RawKeyPositions.Has(mask, q) ==>
               E.Size(e.edges[minPos]) <= E.Size(e.edges[q])) &&
            (forall q :: 0 <= q < minPos && RawKeyPositions.Has(mask, q) ==>
               E.Size(e.edges[minPos]) < E.Size(e.edges[q]))
  {
    var cards := MaskedCards(e, mask);
    var minPos := E.FirstMinIndex(cards, |e.edges|);
    E.FirstMinIndexIsFirstMin(cards, |cards|);
    assert cards[minPos] <= cards[pos] < E.SizeMax;
    assert RawKeyPositions.Has(mask, minPos);
    forall q | 0 <= q < |e.edges| && RawKeyPositions.Has(mask, q)
      ensures E.Size(e.edges[minPos]) <= E.Size(e.edges[q])
    {
      assert cards[minPos] <= cards[q];
    }
    forall q | 0 <= q < minPos && RawKeyPositions.Has(mask, q)
      ensures E.Size(e.edges[minPos]) < E.Size(e.edges[q])
    {
      assert cards[minPos] < cards[q];
    }
  }
}
