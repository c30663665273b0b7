/** Keys, slice keys and non-zero entries of a hypertrie (Key.hpp).
    A key is a sequence of key parts; a slice key leaves some parts open
    (None) and fixes the others. */
module Keys {
  import opened Wrappers

  type Key<K> = seq<K>
  type SliceKey<K> = seq<Option<K>>

  /** The error std::logic_error("value must not be zero equivalent."). */
  datatype EntryError = ZeroValue

  /** Number of open (None) parts of a slice key. */
  function CountOpen<K>(sk: SliceKey<K>): (r: nat)
    ensures r <= |sk|
  {
    if sk == [] then 0
    else CountOpen(sk[..|sk| - 1]) + (if sk[|sk| - 1].None? then 1 else 0)
  }

  /** The positions of a slice key that hold a fixed part, in ascending order. */
  function FixedPositions<K>(sk: SliceKey<K>): (ps: seq<nat>)
    ensures forall i :: 0 <= i < |ps| ==> ps[i] < |sk| && sk[ps[i]].Some?
    ensures forall i, j :: 0 <= i < j < |ps| ==> ps[i] < ps[j]
    ensures forall p :: 0 <= p < |sk| && sk[p].Some? ==> p in ps
  {
    if sk == [] then []
    else
      var init := FixedPositions(sk[..|sk| - 1]);
      if sk[|sk| - 1].Some? then init + [|sk| - 1] else init
  }

  /** SliceKey::get_fixed_depth: the size minus the number of open parts. */
  function GetFixedDepth<K>(sk: SliceKey<K>): (r: nat)
  {
    |sk| - CountOpen(sk)
  }

  /** get_fixed_depth is the number of fixed positions of the slice key. */
  lemma {:induction false} FixedDepthCountsFixedParts<K>(sk: SliceKey<K>)
    ensures GetFixedDepth(sk) == |FixedPositions(sk)|
  {
    if sk != [] {
      FixedDepthCountsFixedParts(sk[..|sk| - 1]);
    }
  }

  /** A slice key without open parts has full fixed depth, and one whose
      parts are all open has fixed depth zero. */
  lemma {:induction false} FixedDepthExtremes<K>(sk: SliceKey<K>)
    ensures (forall i :: 0 <= i < |sk| ==> sk[i].Some?) ==> GetFixedDepth(sk) == |sk|
    ensures (forall i :: 0 <= i < |sk| ==> sk[i].None?) ==> GetFixedDepth(sk) == 0
  {
    if sk != [] {
      FixedDepthExtremes(sk[..|sk| - 1]);
    }
  }

  /** NonZeroEntry for an integer-valued hypertrie: a key and a value that
      is never zero. */
  class NonZeroEntry<K> {
    var key: Key<K>
    var value: int

    ghost predicate Valid()
      reads this
    {
      value != 0
    }

    constructor Init(key: Key<K>, value: int)
      requires value != 0
      ensures Valid() && this.key == key && this.value == value
    {
      this.key := key;
      this.value := value;
    }

    /** The value setter: a zero value is rejected and nothing changes;
        any other value is stored. */
    method SetValue(newValue: int) returns (outcome: Outcome<EntryError>)
      requires Valid()
      modifies this
      ensures Valid() && key == old(key)
      ensures outcome.Fail? <==> newValue == 0
      ensures value == if newValue == 0 then old(value) else newValue
    {
      if newValue != 0 {
        value := newValue;
        outcome := Pass;
      } else {
        outcome := Fail(ZeroValue);
      }
    }

    /** fill: every key part becomes keyPart; size and value are kept. */
    method Fill(keyPart: K)
      modifies this
      ensures |key| == |old(key)| && value == old(value)
      ensures forall i :: 0 <= i < |key| ==> key[i] == keyPart
    {
      key := seq(|key|, _ => keyPart);
    }
  }

  /** The NonZeroEntry(key, value) constructor: it throws for a zero value. */
  method MakeEntry<K>(key: Key<K>, value: int) returns (r: Result<NonZeroEntry<K>, EntryError>)
    ensures r.Failure? <==> value == 0
    ensures r.Success? ==>
      fresh(r.value) && r.value.Valid() && r.value.key == key && r.value.value == value
  {
    if value == 0 {
      r := Failure(ZeroValue);
    } else {
      var e := new NonZeroEntry.Init(key, value);
      r := Success(e);
    }
  }

  /** make_filled: an entry whose key has `size` parts all equal to keyPart.
      A zero value makes the throwing constructor fail (inside a noexcept
      function, which ends the program). */
  method MakeFilled<K>(size: nat, keyPart: K, value: int) returns (r: Result<NonZeroEntry<K>, EntryError>)
    ensures r.Failure? <==> value == 0
    ensures r.Success? ==>
      fresh(r.value) && r.value.value == value && |r.value.key| == size &&
      forall i :: 0 <= i < size ==> r.value.key[i] == keyPart
  {
    r := MakeEntry(seq(size, _ => keyPart), value);
  }
}
