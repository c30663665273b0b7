/** WithEdges (libs/hypertrie/src/dice/hypertrie/internal/raw/node/WithEdges.hpp):
    the child collections of a node, one per key position, and the queries
    for a child and for the position with the fewest children. */
module Edges {
  import RawKeys

  /** std::numeric_limits<size_t>::max(), the start value of every running
      minimum below. */
  const SizeMax: nat := 0xFFFF_FFFF_FFFF_FFFF

  /** The children at one position: a set of key parts for a bool-valued
      node of depth 1, otherwise a map from key part to child. */
  datatype Children<K, C> = KeySet(keys: set<K>) | ChildMap(children: map<K, C>)

  /** The key parts that have a child. */
  function Keys<K, C>(ch: Children<K, C>): set<K>
  {
    match ch
    case KeySet(ks) => ks
    case ChildMap(m) => m.Keys
  }

  /** size() of a child collection. */
  function Size<K, C>(ch: Children<K, C>): nat
  {
    match ch
    case KeySet(ks) => |ks|
    case ChildMap(m) => |m|
  }

  /** edges_: the child collections of a node, position by position; a node
      of depth 1 has exactly one. */
  datatype WithEdges<K, C> = WithEdges(edges: seq<Children<K, C>>)

  /** Every size fits in a size_t. */
  ghost predicate SizesFit<K, C>(e: WithEdges<K, C>)
  {
    forall pos :: 0 <= pos < |e.edges| ==> Size(e.edges[pos]) <= SizeMax
  }

  /** find: whether the collection at pos has a child for the key part
      (the iterator it also returns is not modelled). */
  function Find<K(==), C>(e: WithEdges<K, C>, pos: nat, keyPart: K): (found: bool)
    requires pos < |e.edges|
    ensures found <==> keyPart in Keys(e.edges[pos])
  {
    match e.edges[pos]
    case KeySet(ks) => keyPart in ks
    case ChildMap(m) => keyPart in m
  }

  /** child: the child for the key part, present (true) when the children
      are a set, and zero (ChildType{}) when there is none. */
  function Child<K(==), C>(e: WithEdges<K, C>, pos: nat, keyPart: K, zero: C, present: C): (r: C)
    requires pos < |e.edges|
    ensures !Find(e, pos, keyPart) ==> r == zero
    ensures Find(e, pos, keyPart) && e.edges[pos].KeySet? ==> r == present
    ensures Find(e, pos, keyPart) && e.edges[pos].ChildMap? ==> r == e.edges[pos].children[keyPart]
  {
    match e.edges[pos]
    case KeySet(ks) => if keyPart in ks then present else zero
    case ChildMap(m) => if keyPart in m then m[keyPart] else zero
  }

  /** The index of the first least entry among s[..n]. */
  function FirstMinIndex(s: seq<nat>, n: nat): (k: nat)
    requires 0 < n <= |s|
    ensures k < n
  {
    if n == 1 then 0
    else
      var k := FirstMinIndex(s, n - 1);
      if s[n - 1] < s[k] then n - 1 else k
  }

  /** FirstMinIndex is the first index of a least entry. */
  lemma {:induction false} FirstMinIndexIsFirstMin(s: seq<nat>, n: nat)
    requires 0 < n <= |s|
    ensures forall j :: 0 <= j < n ==> s[FirstMinIndex(s, n)] <= s[j]
    ensures forall j :: 0 <= j < FirstMinIndex(s, n) ==> s[j] > s[FirstMinIndex(s, n)]
  {
    if n > 1 {
      FirstMinIndexIsFirstMin(s, n - 1);
    }
  }

  /** The sizes of the collections at the given positions. */
  function Cards<K, C>(e: WithEdges<K, C>, positions: seq<nat>): (cards: seq<nat>)
    requires forall i :: 0 <= i < |positions| ==> positions[i] < |e.edges|
    ensures |cards| == |positions|
  {
    seq(|positions|, i requires 0 <= i < |positions| => Size(e.edges[positions[i]]))
  }

  /** The index the running minimum of the loops below holds after the
      entries s[..j]: 0 before the first entry. */
  function MinIndexSoFar(s: seq<nat>, j: nat): (k: nat)
    requires j <= |s|
    ensures j > 0 ==> k < j
  {
    if j == 0 then 0 else FirstMinIndex(s, j)
  }

  /** The least entry the running minimum holds after the entries s[..j]:
      SizeMax before the first entry. */
  function MinCardSoFar(s: seq<nat>, j: nat): nat
    requires j <= |s|
  {
    if j == 0 then SizeMax else s[FirstMinIndex(s, j)]
  }

  /** One more entry of the running minimum: a strictly smaller entry
      replaces it. */
  lemma MinSoFarStep(s: seq<nat>, j: nat)
    requires j < |s| && s[j] <= SizeMax
    ensures MinIndexSoFar(s, j + 1) == if s[j] < MinCardSoFar(s, j) then j else MinIndexSoFar(s, j)
    ensures MinCardSoFar(s, j + 1) == if s[j] < MinCardSoFar(s, j) then s[j] else MinCardSoFar(s, j)
  {
  }

  /** minCardPos(positions): the first listed position whose collection is
      smallest; the list must not be empty. */
  method MinCardPos<K, C>(e: WithEdges<K, C>, positions: seq<nat>) returns (minPos: nat)
    requires |positions| > 0 && SizesFit(e)
    requires forall i :: 0 <= i < |positions| ==> positions[i] < |e.edges|
    ensures minPos == positions[FirstMinIndex(Cards(e, positions), |positions|)]
  {
    ghost var cards := Cards(e, positions);
    minPos := positions[0];
    var minCard := SizeMax;
    for j := 0 to |positions|
      invariant minCard == MinCardSoFar(cards, j)
      invariant minPos == positions[MinIndexSoFar(cards, j)]
    {
      var pos := positions[j];
      var currentCard := Size(e.edges[pos]);
      MinSoFarStep(cards, j);
      if currentCard < minCard {
        minCard := currentCard;
        minPos := pos;
      }
    }
  }

  /** The sizes of all collections, position by position. */
  function AllCards<K, C>(e: WithEdges<K, C>): (cards: seq<nat>)
    ensures |cards| == |e.edges|
  {
    seq(|e.edges|, pos requires 0 <= pos < |e.edges| => Size(e.edges[pos]))
  }

  /** min_card_pos(): 0 at depth 1, otherwise the least position whose
      collection is smallest. */
  method MinCardPosAll<K, C>(e: WithEdges<K, C>) returns (minPos: nat)
    requires |e.edges| > 0 && SizesFit(e)
    ensures minPos == FirstMinIndex(AllCards(e), |e.edges|)
  {
    ghost var cards := AllCards(e);
    if |e.edges| == 1 {
      return 0;
    }
    minPos := 0;
    var minCard := SizeMax;
    for pos := 0 to |e.edges|
      invariant minPos == MinIndexSoFar(cards, pos) && minCard == MinCardSoFar(cards, pos)
    {
      var currentCard := Size(e.edges[pos]);
      MinSoFarStep(cards, pos);
      if currentCard < minCard {
        minCard := currentCard;
        minPos := pos;
      }
    }
  }

  /** The sizes of the collections at the fixed positions of a raw slice key. */
  function FixedCards<K, C, V>(e: WithEdges<K, C>, rsk: RawKeys.RawSliceKey<V>): (cards: seq<nat>)
    requires RawKeys.WellFormed(rsk, |e.edges|)
    ensures |cards| == |rsk|
  {
    seq(|rsk|, i requires 0 <= i < |rsk| => Size(e.edges[rsk[i].pos]))
  }

  /** min_fixed_keypart_i: walks the positions, steps through the fixed
      values of the raw slice key as their positions come up, and returns
      the index of the first fixed value whose collection is smallest. The
      key must fix at least one position. */
  method MinFixedKeypartI<K, C, V>(e: WithEdges<K, C>, rsk: RawKeys.RawSliceKey<V>) returns (minI: nat)
    requires |rsk| > 0 && RawKeys.WellFormed(rsk, |e.edges|) && SizesFit(e)
    ensures minI == FirstMinIndex(FixedCards(e, rsk), |rsk|)
  {
    ghost var cards := FixedCards(e, rsk);
    minI := 0;
    var minCard := SizeMax;
    var i := 0;
    var pos := 0;
    while pos < |e.edges|
      invariant pos <= |e.edges| && i < |rsk|
      invariant forall q :: 0 <= q < i ==> rsk[q].pos < pos
      invariant rsk[i].pos >= pos
      invariant minI == MinIndexSoFar(cards, i) && minCard == MinCardSoFar(cards, i)
    {
      if pos == rsk[i].pos {
        var currentCard := Size(e.edges[pos]);
        MinSoFarStep(cards, i);
        if currentCard < minCard {
          minCard := currentCard;
          minI := i;
        }
        i := i + 1;
      }
      if i == |rsk| {
        break;
      }
      pos := pos + 1;
    }
    assert i == |rsk|;
  }

  /** getCards: the sizes of the collections at the given positions. */
  method GetCards<K, C>(e: WithEdges<K, C>, positions: seq<nat>) returns (cards: seq<nat>)
    requires forall i :: 0 <= i < |positions| ==> positions[i] < |e.edges|
    ensures |cards| == |positions|
    ensures forall i :: 0 <= i < |positions| ==> cards[i] == Size(e.edges[positions[i]])
  {
    var a := new nat[|positions|];
    for i := 0 to |positions|
      invariant forall q :: 0 <= q < i ==> a[q] == Size(e.edges[positions[q]])
    {
      a[i] := Size(e.edges[positions[i]]);
    }
    cards := a[..];
  }
}
