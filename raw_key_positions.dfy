/** RawKeyPositions (RawDiagonalPositions.hpp): a bit set over the
    positions of a key of depth below 8, stored in one byte. */
module RawKeyPositions {
  import opened Wrappers
  import RawKeys

  /** A RawKeyPositions<depth>: position pos is bit pos % 8 of byte pos / 8;
      as depth < 8 there is at most one byte (none for depth 0). The model
      keeps the bits the positions use, bit pos at index pos. */
  datatype RawKeyPositions = RawKeyPositions(depth: nat, bits: seq<bool>)

  /** The static assertion depth < 8, and one bit per position. */
  predicate Valid(p: RawKeyPositions)
  {
    p.depth < 8 && |p.bits| == p.depth
  }

  /** operator[]: whether pos is one of the positions, that is whether
      data & (std::byte(1) << pos % 8) is nonzero. */
  predicate Has(p: RawKeyPositions, pos: nat)
    requires pos < p.depth
  {
    pos < |p.bits| && p.bits[pos]
  }

  /** The set of positions the bit set holds. */
  function Positions(p: RawKeyPositions): set<nat>
  {
    set q | 0 <= q < p.depth && Has(p, q)
  }

  /** The default-constructed bit set holds no position. */
  function Empty(depth: nat): (p: RawKeyPositions)
    requires depth < 8
    ensures Valid(p) && p.depth == depth
    ensures forall q :: 0 <= q < depth ==> !Has(p, q)
  {
    RawKeyPositions(depth, seq(depth, _ => false))
  }

  /** set_true (private): data |= std::byte(1) << pos % 8. */
  function SetTrue(p: RawKeyPositions, pos: nat): (r: RawKeyPositions)
    requires Valid(p) && pos < p.depth
    ensures Valid(r) && r.depth == p.depth
    ensures forall q :: 0 <= q < p.depth ==> (Has(r, q) <==> Has(p, q) || q == pos)
  {
    p.(bits := p.bits[pos := true])
  }

  /** The RawKeyPositions(positions) constructor. */
  method FromPositions(depth: nat, positions: seq<nat>) returns (p: RawKeyPositions)
    requires depth < 8
    requires forall i :: 0 <= i < |positions| ==> positions[i] < depth
    ensures Valid(p) && p.depth == depth
    ensures forall q :: 0 <= q < depth ==> (Has(p, q) <==> q in positions)
  {
    p := Empty(depth);
    var i := 0;
    while i < |positions|
      invariant 0 <= i <= |positions|
      invariant Valid(p) && p.depth == depth
      invariant forall q :: 0 <= q < depth ==> (Has(p, q) <==> q in positions[..i])
    {
      assert positions[..i + 1] == positions[..i] + [positions[i]];
      p := SetTrue(p, positions[i]);
      i := i + 1;
    }
    assert positions[..i] == positions;
  }

  /** first_pos: the least position held; some position must be held. */
  method FirstPos(p: RawKeyPositions) returns (first: nat)
    requires Valid(p)
    requires exists q :: 0 <= q < p.depth && Has(p, q)
    ensures first < p.depth && Has(p, first)
    ensures forall q :: 0 <= q < first ==> !Has(p, q)
  {
    var pos := 0;
    while pos < p.depth
      invariant 0 <= pos <= p.depth
      invariant forall q :: 0 <= q < pos ==> !Has(p, q)
    {
      if Has(p, pos) {
        return pos;
      }
      pos := pos + 1;
    }
    assert false;
  }

  /** The position of the original key that position i of the sub key
      came from when removePos is taken out. */
  function SourcePos(i: nat, removePos: nat): nat
  {
    if i < removePos then i else i + 1
  }

  /** sub_raw_key_positions: the bit set for the key without position
      removePos. A position after removePos moves down by one. */
  method SubRawKeyPositions(p: RawKeyPositions, removePos: nat) returns (sub: RawKeyPositions)
    requires Valid(p) && p.depth > 0
    requires removePos < p.depth || !Has(p, p.depth - 1)
    ensures Valid(sub) && sub.depth == p.depth - 1
    ensures forall i :: 0 <= i < sub.depth ==> (Has(sub, i) <==> Has(p, SourcePos(i, removePos)))
  {
    sub := Empty(p.depth - 1);
    var offset := false;
    var pos := 0;
    while pos < p.depth
      invariant 0 <= pos <= p.depth
      invariant offset <==> removePos < pos
      invariant Valid(sub) && sub.depth == p.depth - 1
      invariant forall i :: 0 <= i < sub.depth ==>
                  (Has(sub, i) <==> SourcePos(i, removePos) < pos && Has(p, SourcePos(i, removePos)))
    {
      if pos == removePos {
        offset := true;
      } else if Has(p, pos) {
        var target := pos - if offset then 1 else 0;
        assert SourcePos(target, removePos) == pos;
        sub := SetTrue(sub, target);
      }
      pos := pos + 1;
    }
  }

  /** The number of positions below n that the bit set holds. */
  function CountBelow(p: RawKeyPositions, n: nat): (c: nat)
    requires n <= p.depth
    ensures c <= n
  {
    if n == 0 then 0 else CountBelow(p, n - 1) + (if Has(p, n - 1) then 1 else 0)
  }

  /** CountBelow counts the held positions below n. */
  lemma {:induction false} CountBelowCardinality(p: RawKeyPositions, n: nat)
    requires n <= p.depth
    ensures CountBelow(p, n) == |set q | 0 <= q < n && Has(p, q)|
  {
    if n > 0 {
      CountBelowCardinality(p, n - 1);
      var below := set q | 0 <= q < n - 1 && Has(p, q);
      if Has(p, n - 1) {
        assert (set q | 0 <= q < n && Has(p, q)) == below + {n - 1};
      } else {
        assert (set q | 0 <= q < n && Has(p, q)) == below;
      }
    }
  }

  /** Between two bounds there are no more held positions than positions,
      and fewer when one of them is not held. */
  lemma {:induction false} CountBelowGap(p: RawKeyPositions, m: nat, n: nat, free: nat)
    requires m <= free < n <= p.depth && !Has(p, free)
    ensures CountBelow(p, n) - CountBelow(p, m) < n - m
    decreases n - m
  {
    if n - 1 > free {
      CountBelowGap(p, m, n - 1, free);
    } else {
      CountBelowMonotone(p, m, n - 1);
    }
  }

  lemma {:induction false} CountBelowMonotone(p: RawKeyPositions, m: nat, n: nat)
    requires m <= n <= p.depth
    ensures CountBelow(p, m) <= CountBelow(p, n) <= CountBelow(p, m) + (n - m)
    decreases n - m
  {
    if m < n {
      CountBelowMonotone(p, m, n - 1);
    }
  }

  /** count: the number of positions held. */
  method Count(p: RawKeyPositions) returns (count: nat)
    requires Valid(p)
    ensures count == |Positions(p)|
  {
    count := 0;
    var pos := 0;
    while pos < p.depth
      invariant 0 <= pos <= p.depth
      invariant count == CountBelow(p, pos)
    {
      count := count + if Has(p, pos) then 1 else 0;
      pos := pos + 1;
    }
    CountBelowCardinality(p, p.depth);
  }

  /** The count of all positions is the number of positions held. */
  lemma CountAllIsSize(p: RawKeyPositions)
    ensures CountBelow(p, p.depth) == |Positions(p)|
  {
    CountBelowCardinality(p, p.depth);
    assert (set q | 0 <= q < p.depth && Has(p, q)) == Positions(p);
  }

  /** An unheld position leaves room for one more open key part. */
  lemma FreeSlot(p: RawKeyPositions, pos: nat)
    requires pos < p.depth && !Has(p, pos)
    ensures pos - CountBelow(p, pos) < p.depth - CountBelow(p, p.depth)
  {
    CountBelowGap(p, pos, p.depth, pos);
  }

  /** slice: None when a held position carries a key part other than
      fixedKeyPart, otherwise the parts at the other positions, in order.
      With fixedDepth 0 the key is returned without looking at the bits. */
  method Slice<K(0,==)>(p: RawKeyPositions, key: seq<K>, fixedKeyPart: K, fixedDepth: nat)
    returns (r: Option<seq<K>>)
    requires Valid(p) && |key| == p.depth && fixedDepth <= p.depth
    requires fixedDepth == 0 || fixedDepth == |Positions(p)|
    ensures fixedDepth == 0 ==> r == Some(key)
    ensures fixedDepth > 0 ==>
      (r.None? <==> exists q :: 0 <= q < p.depth && Has(p, q) && key[q] != fixedKeyPart)
    ensures fixedDepth > 0 && r.Some? ==>
      r.value == RawKeys.Unfixed(key, Positions(p)) && |r.value| == p.depth - fixedDepth
  {
    if fixedDepth == 0 {
      return Some(key);
    }
    CountAllIsSize(p);
    ghost var held := Positions(p);
    var a := new K[p.depth - fixedDepth];
    var offset := 0;
    var pos := 0;
    while pos < p.depth
      invariant 0 <= pos <= p.depth
      invariant offset == CountBelow(p, pos)
      invariant forall q :: 0 <= q < pos && Has(p, q) ==> key[q] == fixedKeyPart
      invariant pos - offset <= a.Length
      invariant a[..pos - offset] == RawKeys.Unfixed(key[..pos], held)
    {
      RawKeys.UnfixedStep(key, pos, held);
      assert pos in held <==> Has(p, pos);
      if Has(p, pos) {
        if key[pos] != fixedKeyPart {
          return None;
        }
        offset := offset + 1;
      } else {
        FreeSlot(p, pos);
        a[pos - offset] := key[pos];
      }
      pos := pos + 1;
    }
    assert key[..pos] == key;
    r := Some(a[..]);
  }
}
