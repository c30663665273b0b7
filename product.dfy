/** Product (tests/utils/Product.hpp): every tuple of a given size over a
    candidate list, enumerated like an odometer.

    The iterator keeps one position into the candidate list per tuple slot
    (iters); iters[i] drives slot size - 1 - i of the tuple, so iters[0],
    the last slot, turns fastest. The positions are modelled as indices
    into the candidate list, and a list of positions as a little-endian
    number in base |candidates|. */
module Products {

  /** b to the power n. */
  function Pow(b: nat, n: nat): (r: nat)
    ensures b > 0 ==> r > 0
  {
    if n == 0 then 1 else b * Pow(b, n - 1)
  }

  /** Every position is a valid index into a list of b candidates. */
  predicate InRange(d: seq<nat>, b: nat)
  {
    forall i :: 0 <= i < |d| ==> d[i] < b
  }

  /** The positions read as a little-endian number in base b. */
  function Number(d: seq<nat>, b: nat): nat
  {
    if d == [] then 0 else d[0] + b * Number(d[1..], b)
  }

  /** n positions at the first candidate. */
  function Zeros(n: nat): (d: seq<nat>)
    ensures |d| == n && forall i :: 0 <= i < n ==> d[i] == 0
  {
    seq(n, _ => 0)
  }

  /** One turn of the odometer over b candidates: the first position that
      is not at the last candidate advances, every position before it
      wraps around to the first candidate. The flag says that every
      position wrapped around. */
  function Step(d: seq<nat>, b: nat): (seq<nat>, bool)
  {
    if d == [] then ([], true)
    else if d[0] + 1 < b then ([d[0] + 1] + d[1..], false)
    else var (rest, wrapped) := Step(d[1..], b); ([0] + rest, wrapped)
  }

  /** A number of positions in range is below b to the number of
      positions. */
  lemma {:induction false} NumberBound(d: seq<nat>, b: nat)
    requires InRange(d, b)
    ensures Number(d, b) < Pow(b, |d|)
  {
    if d != [] {
      assert InRange(d[1..], b);
      NumberBound(d[1..], b);
      var n := Number(d[1..], b);
      assert n + 1 <= Pow(b, |d| - 1);
      calc {
        Number(d, b);
        d[0] + b * n;
      <  b + b * n;
      == b * (n + 1);
      <= { MulLe(b, n + 1, Pow(b, |d| - 1)); }
        b * Pow(b, |d| - 1);
      }
    }
  }

  lemma MulLe(b: nat, x: nat, y: nat)
    requires x <= y
    ensures b * x <= b * y
  {
  }

  /** The odometer ends a turn with every position wrapped around exactly
      when every position was at the last candidate: after the last
      combination. */
  lemma {:induction false} StepWrapsAtLast(d: seq<nat>, b: nat)
    requires InRange(d, b)
    ensures Step(d, b).1 <==> forall i :: 0 <= i < |d| ==> d[i] == b - 1
  {
    if d != [] {
      assert InRange(d[1..], b);
      StepWrapsAtLast(d[1..], b);
      if d[0] + 1 >= b {
        assert forall i :: 1 <= i < |d| ==> d[i] == d[1..][i - 1];
      }
    }
  }

  /** What one turn does to positions d in range: it keeps their number
      and range, and adds one to the number they stand for; it wraps every
      position around, back to the first candidate, exactly after the last
      combination. */
  predicate Counts(d: seq<nat>, b: nat)
  {
    var (r, wrapped) := Step(d, b);
    |r| == |d| && InRange(r, b) &&
    (wrapped <==> Number(d, b) + 1 == Pow(b, |d|)) &&
    (wrapped ==> r == Zeros(|d|)) &&
    (!wrapped ==> Number(r, b) == Number(d, b) + 1)
  }

  /** Every turn of the odometer counts up by one. */
  lemma {:induction false} StepCounts(d: seq<nat>, b: nat)
    requires InRange(d, b)
    ensures Counts(d, b)
  {
    if d != [] {
      if d[0] + 1 < b {
        StepAdvances(d, b);
      } else {
        assert InRange(d[1..], b);
        StepCounts(d[1..], b);
        StepCarries(d, b);
      }
    }
  }

  /** A turn that advances the first position. */
  lemma StepAdvances(d: seq<nat>, b: nat)
    requires d != [] && InRange(d, b) && d[0] + 1 < b
    ensures Counts(d, b)
  {
    var tail := d[1..];
    assert InRange(tail, b);
    NumberBound(tail, b);
    var n := Number(tail, b);
    var r := [d[0] + 1] + tail;
    assert Step(d, b) == (r, false);
    assert r[1..] == tail;
    assert Number(r, b) == Number(d, b) + 1;
    assert b + b * n == b * (n + 1);
    MulLe(b, n + 1, Pow(b, |tail|));
    assert Number(d, b) + 1 < Pow(b, |d|);
  }

  /** A turn that wraps the first position around and carries into the
      rest. */
  lemma StepCarries(d: seq<nat>, b: nat)
    requires d != [] && InRange(d, b) && d[0] + 1 >= b
    requires Counts(d[1..], b)
    ensures Counts(d, b)
  {
    var tail := d[1..];
    var n := Number(tail, b);
    var (rest, wrapped) := Step(tail, b);
    var r := [0] + rest;
    assert Step(d, b) == (r, wrapped);
    assert r[1..] == rest;
    assert InRange(tail, b);
    NumberBound(tail, b);
    CarryArith(b, n, Pow(b, |tail|));
    if wrapped {
      assert r == Zeros(|d|);
    }
  }

  /** The arithmetic of a carry: (b - 1) + b * n + 1 is b * (n + 1), and
      it reaches b * p exactly when n + 1 reaches p. */
  lemma CarryArith(b: nat, n: nat, p: nat)
    requires 0 < b && n < p
    ensures b - 1 + b * n + 1 == b * (n + 1)
    ensures b * (n + 1) == b * p <==> n + 1 == p
    ensures b * (n + 1) <= b * p
  {
    MulLe(b, n + 1, p);
    if n + 1 < p {
      MulLe(b, n + 2, p);
    }
  }

  /** Positions in range are determined by their number: no two lists
      of positions of one length stand for the same number. */
  lemma {:induction false} NumberInjective(d: seq<nat>, e: seq<nat>, b: nat)
    requires |d| == |e| && InRange(d, b) && InRange(e, b)
    requires Number(d, b) == Number(e, b)
    ensures d == e
  {
    if d != [] {
      DigitUnique(b, d[0], e[0], Number(d[1..], b), Number(e[1..], b));
      assert InRange(d[1..], b) && InRange(e[1..], b);
      NumberInjective(d[1..], e[1..], b);
      assert d == [d[0]] + d[1..] && e == [e[0]] + e[1..];
    }
  }

  /** A digit below b and the rest of a number in base b are determined
      by the number. */
  lemma DigitUnique(b: nat, x: nat, y: nat, m: nat, n: nat)
    requires x < b && y < b && x + b * m == y + b * n
    ensures x == y && m == n
  {
    if m < n {
      MulLe(b, m + 1, n);
    } else if n < m {
      MulLe(b, n + 1, m);
    }
  }

  /** k turns of the odometer from positions d, and whether any of them
      ended with every position wrapped around. */
  function Run(d: seq<nat>, b: nat, k: nat): (seq<nat>, bool)
  {
    if k == 0 then (d, false)
    else
      var (r, wrapped) := Run(d, b, k - 1);
      var (s, w) := Step(r, b);
      (s, wrapped || w)
  }

  /** Starting at the first candidate everywhere, the odometer visits the
      tuples in counting order: after k < b^n turns the positions stand
      for the number k and it has not ended; after b^n turns it has ended,
      back at the first candidate everywhere. */
  lemma {:induction false} RunEnumerates(b: nat, n: nat, k: nat)
    requires b > 0 && k <= Pow(b, n)
    ensures k < Pow(b, n) ==>
              var (d, ended) := Run(Zeros(n), b, k);
              |d| == n && InRange(d, b) && Number(d, b) == k && !ended
    ensures k == Pow(b, n) ==> Run(Zeros(n), b, k) == (Zeros(n), true)
  {
    if k == 0 {
      ZerosNumber(n, b);
    } else {
      RunEnumerates(b, n, k - 1);
      var (d, _) := Run(Zeros(n), b, k - 1);
      StepCounts(d, b);
    }
  }

  /** Every tuple of candidates is visited before the end, at the turn
      given by its number, and (by NumberInjective) at no other turn. */
  lemma EveryTupleVisited(d: seq<nat>, b: nat)
    requires b > 0 && InRange(d, b)
    ensures Number(d, b) < Pow(b, |d|)
    ensures Run(Zeros(|d|), b, Number(d, b)) == (d, false)
  {
    NumberBound(d, b);
    RunEnumerates(b, |d|, Number(d, b));
    var (r, _) := Run(Zeros(|d|), b, Number(d, b));
    NumberInjective(r, d, b);
  }

  lemma {:induction false} ZerosNumber(n: nat, b: nat)
    ensures Number(Zeros(n), b) == 0
  {
    if n > 0 {
      assert Zeros(n)[1..] == Zeros(n - 1);
      ZerosNumber(n - 1, b);
    }
  }

  /** Product: a tuple size and the candidates. */
  datatype Product<T> = Product(size: nat, candidates: seq<T>)

  /** The candidates min, min + 1, ..., excl_max - 1 (none when excl_max
      is not above min). */
  function Range(min: int, exclMax: int): (r: seq<int>)
    ensures |r| == if exclMax > min then exclMax - min else 0
    ensures forall k :: 0 <= k < |r| ==> r[k] == min + k
  {
    if exclMax <= min then [] else seq(exclMax - min, k => min + k)
  }

  /** product(size, excl_max, min): tuples of size over [min, excl_max). */
  function MakeProduct(size: nat, exclMax: int, min: int): (p: Product<int>)
    ensures p.size == size && p.candidates == Range(min, exclMax)
  {
    Product(size, Range(min, exclMax))
  }

  /** Product::iterator: the positions, the current tuple and whether the
      enumeration has ended. */
  class ProductIterator<T> {
    const candidates: seq<T>
    const size: nat
    var iters: seq<nat>
    var value: seq<T>
    var ended: bool

    ghost predicate Valid()
      reads this
    {
      |iters| == size && InRange(iters, |candidates|) && |value| == size &&
      forall j :: 0 <= j < size ==> value[j] == candidates[iters[size - 1 - j]]
    }

    /** begin(): every position at the first candidate, ended when there
        is no candidate. Building the first tuple reads the first candidate,
        so an empty candidate list is only allowed for size 0. */
    constructor (p: Product<T>)
      requires |p.candidates| > 0 || p.size == 0
      ensures Valid() && candidates == p.candidates && size == p.size
      ensures iters == Zeros(size)
      ensures forall j :: 0 <= j < size ==> value[j] == candidates[0]
      ensures ended <==> |candidates| == 0
    {
      candidates := p.candidates;
      size := p.size;
      iters := Zeros(p.size);
      value := seq(p.size, _ requires |p.candidates| > 0 => p.candidates[0]);
      ended := |p.candidates| == 0;
    }

    /** operator++: one turn of the odometer; the tuple follows the
        positions, and the enumeration ends when every position wrapped
        around. */
    method Next()
      requires Valid()
      modifies this
      ensures Valid()
      ensures iters == Step(old(iters), |candidates|).0
      ensures ended == (old(ended) || Step(old(iters), |candidates|).1)
    {
      var i := 0;
      while i < |iters|
        invariant 0 <= i <= size && Valid()
        invariant forall k :: 0 <= k < i ==> iters[k] == 0 && old(iters)[k] == |candidates| - 1
        invariant forall k :: i <= k < size ==> iters[k] == old(iters)[k]
        invariant ended == old(ended)
      {
        var next := iters[i] + 1;
        if next < |candidates| {
          iters := iters[i := next];
          value := value[size - 1 - i := candidates[next]];
          StepAt(old(iters), |candidates|, i);
          return;
        }
        iters := iters[i := 0];
        value := value[size - 1 - i := candidates[0]];
        i := i + 1;
      }
      StepAtLast(old(iters), |candidates|);
      ended := true;
    }
  }

  /** The turn that advances position i: the positions before it were at
      the last candidate and wrap around. */
  lemma {:induction false} StepAt(d: seq<nat>, b: nat, i: nat)
    requires i < |d| && d[i] + 1 < b
    requires forall k :: 0 <= k < i ==> d[k] == b - 1
    ensures var (r, wrapped) := Step(d, b);
            !wrapped && |r| == |d| &&
            forall k :: 0 <= k < |d| ==> r[k] == if k < i then 0 else if k == i then d[i] + 1 else d[k]
  {
    if i > 0 {
      StepAt(d[1..], b, i - 1);
      var (rest, w) := Step(d[1..], b);
      assert Step(d, b) == ([0] + rest, w);
    }
  }

  /** The turn after the last combination wraps every position around. */
  lemma {:induction false} StepAtLast(d: seq<nat>, b: nat)
    requires forall k :: 0 <= k < |d| ==> d[k] == b - 1 && d[k] + 1 >= b
    ensures Step(d, b) == (Zeros(|d|), true)
  {
    if d != [] {
      StepAtLast(d[1..], b);
      assert Zeros(|d|) == [0] + Zeros(|d| - 1);
    }
  }
}
