/** Raw keys and raw slice keys (RawKey.hpp). A raw key of depth d is a
    fixed-size array of d key parts; a raw slice key lists the fixed
    positions of a slice key with their key parts. */
module RawKeys {
  import opened Wrappers
  import opened Keys

  /** pos_type: key positions are stored in 8 bits. */
  type Pos = p: nat | p < 256

  /** RawSliceKey::FixedValue. */
  datatype FixedValue<K> = FixedValue(pos: Pos, keyPart: K)

  /** A RawSliceKey<fixed_depth>: its length is fixed_depth. */
  type RawSliceKey<K> = seq<FixedValue<K>>

  /** The key parts of `key` at positions outside `fixed`, in their order. */
  function Unfixed<K>(key: seq<K>, fixed: set<nat>): seq<K>
  {
    if key == [] then []
    else Unfixed(key[..|key| - 1], fixed) + (if |key| - 1 in fixed then [] else [key[|key| - 1]])
  }

  /** The set of positions a raw slice key fixes. */
  function FixedPosSet<K>(rsk: RawSliceKey<K>): set<nat>
  {
    set i | 0 <= i < |rsk| :: rsk[i].pos as nat
  }

  /** A raw slice key for keys of the given depth: its positions are below
      the depth and strictly ascending (as built from a slice key). */
  predicate WellFormed<K>(rsk: RawSliceKey<K>, depth: nat)
  {
    (forall i :: 0 <= i < |rsk| ==> rsk[i].pos < depth) &&
    (forall i, j :: 0 <= i < j < |rsk| ==> rsk[i].pos < rsk[j].pos)
  }

  /** The key agrees with every fixed part of the raw slice key. */
  predicate Matches<K(==)>(rsk: RawSliceKey<K>, key: seq<K>)
    requires WellFormed(rsk, |key|)
  {
    forall i :: 0 <= i < |rsk| ==> key[rsk[i].pos] == rsk[i].keyPart
  }

  /** Leaving no position out keeps the key as it is. */
  lemma {:induction false} UnfixedNothing<K>(key: seq<K>)
    ensures Unfixed(key, {}) == key
  {
    if key != [] {
      UnfixedNothing(key[..|key| - 1]);
    }
  }

  /** Going one position further adds the key part there unless it is fixed. */
  lemma UnfixedStep<K>(key: seq<K>, pos: nat, fixed: set<nat>)
    requires pos < |key|
    ensures Unfixed(key[..pos + 1], fixed) ==
            Unfixed(key[..pos], fixed) + if pos in fixed then [] else [key[pos]]
  {
    assert key[..pos + 1][..pos] == key[..pos];
  }

  /** Positions before the ithFixed-th fixed value that are not fixed by
      the earlier ones are not fixed at all. */
  lemma NotFixedHere<K>(rsk: RawSliceKey<K>, ithFixed: nat, keyPos: nat)
    requires ithFixed <= |rsk|
    requires forall i, j :: 0 <= i < j < |rsk| ==> rsk[i].pos < rsk[j].pos
    requires ithFixed > 0 ==> rsk[ithFixed - 1].pos < keyPos
    requires ithFixed < |rsk| ==> rsk[ithFixed].pos > keyPos
    ensures keyPos !in FixedPosSet(rsk)
  {
    forall t | 0 <= t < |rsk|
      ensures rsk[t].pos != keyPos
    {
      if t < ithFixed - 1 {
        assert rsk[t].pos < rsk[ithFixed - 1].pos;
      } else if t > ithFixed {
        assert rsk[ithFixed].pos < rsk[t].pos;
      }
    }
  }

  /** RawKey::subkey: the key without the part at removePos, order kept. */
  method Subkey<K(0)>(key: seq<K>, removePos: nat) returns (sub: seq<K>)
    requires |key| > 0 && removePos < |key|
    ensures |sub| == |key| - 1
    ensures forall i :: 0 <= i < |sub| ==> sub[i] == if i < removePos then key[i] else key[i + 1]
    ensures sub == key[..removePos] + key[removePos + 1..]
  {
    var a := new K[|key| - 1];
    var i, j := 0, 0;
    while i < |key|
      invariant 0 <= i <= |key|
      invariant j == if i <= removePos then i else i - 1
      invariant forall k {:trigger a[k]} :: 0 <= k < j ==> a[k] == if k < removePos then key[k] else key[k + 1]
    {
      if i != removePos {
        a[j] := key[i];
        j := j + 1;
      }
      i := i + 1;
    }
    sub := a[..];
  }

  /** The fixed values of a slice key in ascending position order, as the
      RawSliceKey constructor stores them; positions are kept in 8 bits. */
  function FixedValuesOf<K>(sk: SliceKey<K>): RawSliceKey<K>
  {
    if sk == [] then []
    else
      var init := FixedValuesOf(sk[..|sk| - 1]);
      match sk[|sk| - 1]
      case Some(kp) => init + [FixedValue((|sk| - 1) % 256, kp)]
      case None => init
  }

  /** One fixed value per fixed part of the slice key. */
  lemma {:induction false} FixedValuesCount<K>(sk: SliceKey<K>)
    ensures |FixedValuesOf(sk)| == GetFixedDepth(sk)
  {
    if sk != [] {
      FixedValuesCount(sk[..|sk| - 1]);
    }
  }

  /** A position below 256 is kept as it is in 8 bits. */
  lemma SmallPos(n: nat)
    requires n < 256
    ensures n % 256 == n
  {
  }

  /** For slice keys of at most 256 parts every fixed value names a fixed
      part of the slice key, with its key part. */
  lemma {:induction false} FixedValuesBelow<K>(sk: SliceKey<K>)
    requires |sk| <= 256
    ensures forall i :: 0 <= i < |FixedValuesOf(sk)| ==>
              FixedValuesOf(sk)[i].pos < |sk| && sk[FixedValuesOf(sk)[i].pos] == Some(FixedValuesOf(sk)[i].keyPart)
  {
    if sk != [] {
      var init := sk[..|sk| - 1];
      FixedValuesBelow(init);
      SmallPos(|sk| - 1);
      var fv, fvInit := FixedValuesOf(sk), FixedValuesOf(init);
      forall i | 0 <= i < |fv|
        ensures fv[i].pos < |sk| && sk[fv[i].pos] == Some(fv[i].keyPart)
      {
        if i < |fvInit| {
          assert fv[i] == fvInit[i];
          assert sk[fv[i].pos] == init[fv[i].pos];
        }
      }
    }
  }

  /** For slice keys of at most 256 parts the fixed values are in strictly
      ascending position order. */
  lemma {:induction false} FixedValuesAscending<K>(sk: SliceKey<K>)
    requires |sk| <= 256
    ensures forall i, j :: 0 <= i < j < |FixedValuesOf(sk)| ==> FixedValuesOf(sk)[i].pos < FixedValuesOf(sk)[j].pos
  {
    if sk != [] {
      var init := sk[..|sk| - 1];
      FixedValuesAscending(init);
      FixedValuesBelow(init);
      SmallPos(|sk| - 1);
      var fv, fvInit := FixedValuesOf(sk), FixedValuesOf(init);
      assert forall i :: 0 <= i < |fvInit| ==> fv[i] == fvInit[i];
    }
  }

  /** Every fixed part of the slice key has a fixed value. */
  lemma {:induction false} FixedValuesComplete<K>(sk: SliceKey<K>)
    requires |sk| <= 256
    ensures forall p :: 0 <= p < |sk| && sk[p].Some? ==> p in FixedPosSet(FixedValuesOf(sk))
  {
    if sk != [] {
      var init := sk[..|sk| - 1];
      FixedValuesComplete(init);
      SmallPos(|sk| - 1);
      var fv, fvInit := FixedValuesOf(sk), FixedValuesOf(init);
      assert forall i :: 0 <= i < |fvInit| ==> fv[i] == fvInit[i];
      assert FixedPosSet(fvInit) <= FixedPosSet(fv);
      if sk[|sk| - 1].Some? {
        assert fv[|fv| - 1].pos == |sk| - 1;
      }
    }
  }

  /** For slice keys of at most 256 parts the fixed values are exactly the
      fixed parts with their positions, in ascending order. */
  lemma FixedValuesFaithful<K>(sk: SliceKey<K>)
    requires |sk| <= 256
    ensures WellFormed(FixedValuesOf(sk), |sk|)
    ensures forall i :: 0 <= i < |FixedValuesOf(sk)| ==>
              sk[FixedValuesOf(sk)[i].pos] == Some(FixedValuesOf(sk)[i].keyPart)
    ensures forall p :: 0 <= p < |sk| && sk[p].Some? ==> p in FixedPosSet(FixedValuesOf(sk))
  {
    FixedValuesBelow(sk);
    FixedValuesAscending(sk);
    FixedValuesComplete(sk);
  }

  /** A prefix of a slice key has no more fixed parts than the whole. */
  lemma {:induction false} PrefixFixedDepth<K>(sk: SliceKey<K>, n: nat)
    requires n <= |sk|
    ensures GetFixedDepth(sk[..n]) <= GetFixedDepth(sk)
    decreases |sk| - n
  {
    if n < |sk| {
      PrefixFixedDepth(sk, n + 1);
      assert sk[..n + 1][..n] == sk[..n];
    } else {
      assert sk[..n] == sk;
    }
  }

  /** One more part of the slice key adds its fixed value, if any; the
      count stays within the fixed depth of the whole key. */
  lemma FixedValuesStep<K>(sk: SliceKey<K>, idx: nat, fixedDepth: nat)
    requires idx < |sk| && GetFixedDepth(sk) == fixedDepth
    ensures FixedValuesOf(sk[..idx + 1]) ==
            FixedValuesOf(sk[..idx]) + (if sk[idx].Some? then [FixedValue(idx % 256, sk[idx].value)] else [])
    ensures |FixedValuesOf(sk[..idx + 1])| == GetFixedDepth(sk[..idx + 1]) <= fixedDepth
  {
    assert sk[..idx + 1][..idx] == sk[..idx];
    PrefixFixedDepth(sk, idx + 1);
    FixedValuesCount(sk[..idx + 1]);
  }

  /** Counting positions in 8 bits: the successor of idx % 256. */
  lemma NextPos(idx: nat)
    ensures (idx % 256 + 1) % 256 == (idx + 1) % 256
  {
  }

  /** The RawSliceKey(SliceKey) constructor. */
  method FromSliceKey<K(0)>(sk: SliceKey<K>, fixedDepth: nat) returns (rsk: RawSliceKey<K>)
    requires GetFixedDepth(sk) == fixedDepth
    ensures |rsk| == fixedDepth
    ensures rsk == FixedValuesOf(sk)
  {
    var a := new FixedValue<K>[fixedDepth];
    var pos := 0;
    var keyPos: Pos := 0;
    var idx := 0;
    while idx < |sk|
      invariant 0 <= idx <= |sk|
      invariant keyPos == idx % 256
      invariant pos == GetFixedDepth(sk[..idx]) == |FixedValuesOf(sk[..idx])| <= fixedDepth
      invariant a[..pos] == FixedValuesOf(sk[..idx])
    {
      FixedValuesStep(sk, idx, fixedDepth);
      if sk[idx].Some? {
        a[pos] := FixedValue(keyPos, sk[idx].value);
        pos := pos + 1;
      }
      NextPos(idx);
      keyPos := (keyPos + 1) % 256;
      idx := idx + 1;
    }
    assert sk[..idx] == sk;
    rsk := a[..];
  }

  /** RawSliceKey::slice: None when some fixed part differs from the key,
      otherwise the key parts at the open positions, in order. */
  method Slice<K(0,==)>(rsk: RawSliceKey<K>, key: seq<K>) returns (r: Option<seq<K>>)
    requires |key| >= |rsk| && WellFormed(rsk, |key|)
    ensures r.None? <==> !Matches(rsk, key)
    ensures r.Some? ==> r.value == Unfixed(key, FixedPosSet(rsk)) && |r.value| == |key| - |rsk|
  {
    if |rsk| == 0 {
      UnfixedNothing(key);
      assert FixedPosSet(rsk) == {};
      return Some(key);
    }
    var depth := |key|;
    var a := new K[depth - |rsk|];
    var ithFixed := 0;
    var resultKeyPos := 0;
    var keyPos := 0;
    while keyPos < depth
      invariant 0 <= keyPos <= depth
      invariant 0 <= ithFixed <= |rsk|
      invariant ithFixed > 0 ==> rsk[ithFixed - 1].pos < keyPos
      invariant ithFixed < |rsk| ==> rsk[ithFixed].pos >= keyPos
      invariant forall t :: 0 <= t < ithFixed ==> key[rsk[t].pos] == rsk[t].keyPart
      invariant resultKeyPos == keyPos - ithFixed
      invariant resultKeyPos <= a.Length
      invariant a[..resultKeyPos] == Unfixed(key[..keyPos], FixedPosSet(rsk))
    {
      UnfixedStep(key, keyPos, FixedPosSet(rsk));
      if ithFixed != |rsk| && rsk[ithFixed].pos == keyPos {
        if rsk[ithFixed].keyPart != key[keyPos] {
          return None;
        }
        assert keyPos in FixedPosSet(rsk);
        ithFixed := ithFixed + 1;
      } else {
        NotFixedHere(rsk, ithFixed, keyPos);
        assert resultKeyPos < a.Length by {
          if ithFixed < |rsk| {
            assert forall t :: ithFixed <= t < |rsk| ==> rsk[t].pos > keyPos;
            assert forall t :: ithFixed <= t < |rsk| ==> rsk[t].pos < depth;
            LaterPositionsFit(rsk, ithFixed, keyPos, depth);
          }
        }
        a[resultKeyPos] := key[keyPos];
        assert a[..resultKeyPos + 1] == a[..resultKeyPos] + [key[keyPos]];
        resultKeyPos := resultKeyPos + 1;
      }
      keyPos := keyPos + 1;
    }
    assert key[..keyPos] == key;
    r := Some(a[..]);
  }

  /** Strictly ascending positions in (keyPos, depth) number at most
      depth - keyPos - 1. */
  lemma {:induction false} LaterPositionsFit<K>(rsk: RawSliceKey<K>, from: nat, keyPos: nat, depth: nat)
    requires from <= |rsk|
    requires forall i, j :: from <= i < j < |rsk| ==> rsk[i].pos < rsk[j].pos
    requires forall t :: from <= t < |rsk| ==> keyPos < rsk[t].pos < depth
    ensures |rsk| - from <= if keyPos < depth then depth - keyPos - 1 else 0
    decreases |rsk| - from
  {
    if from < |rsk| {
      LaterPositionsFit(rsk, from + 1, rsk[from].pos, depth);
    }
  }

  /** RawSliceKey::subkey_i: the i-th fixed value is dropped and the later
      positions move down by one (pos_type arithmetic, modulo 256). */
  method SubkeyI<K(0)>(rsk: RawSliceKey<K>, removeIth: nat) returns (sub: RawSliceKey<K>)
    requires |rsk| > 0 && removeIth < |rsk|
    ensures |sub| == |rsk| - 1
    ensures forall k :: 0 <= k < removeIth ==> sub[k] == rsk[k]
    ensures forall k :: removeIth <= k < |sub| ==> sub[k] == ShiftedDown(rsk[k + 1])
  {
    var a := new FixedValue<K>[|rsk| - 1];
    var offset := 0;
    var i, j := 0, 0;
    while i < |rsk|
      invariant 0 <= i <= |rsk|
      invariant offset == if i <= removeIth then 0 else 1
      invariant j == i - offset
      invariant forall k {:trigger a[k]} :: 0 <= k < j ==> a[k] == if k < removeIth then rsk[k] else ShiftedDown(rsk[k + 1])
    {
      if i == removeIth {
        offset := 1;
      } else {
        a[j] := FixedValue((rsk[i].pos - offset) % 256, rsk[i].keyPart);
        j := j + 1;
      }
      i := i + 1;
    }
    sub := a[..];
  }

  /** A fixed value whose position moves down by one in 8-bit arithmetic. */
  function ShiftedDown<K>(fv: FixedValue<K>): FixedValue<K>
  {
    FixedValue((fv.pos - 1) % 256, fv.keyPart)
  }

  /** subkey_i of a well-formed raw slice key is well-formed for keys one
      part shorter: no position wraps around. */
  lemma SubkeyIWellFormed<K>(rsk: RawSliceKey<K>, removeIth: nat, depth: nat, sub: RawSliceKey<K>)
    requires WellFormed(rsk, depth) && removeIth < |rsk| && depth > 0
    requires |sub| == |rsk| - 1
    requires forall k :: 0 <= k < removeIth ==> sub[k] == rsk[k]
    requires forall k :: removeIth <= k < |sub| ==> sub[k] == ShiftedDown(rsk[k + 1])
    ensures WellFormed(sub, depth - 1)
    ensures forall k :: removeIth <= k < |sub| ==> sub[k].pos == rsk[k + 1].pos - 1
  {
    forall k | removeIth <= k < |sub|
      ensures sub[k].pos == rsk[k + 1].pos - 1
    {
      assert rsk[removeIth].pos < rsk[k + 1].pos;
    }
    forall k | 0 <= k < removeIth
      ensures sub[k].pos < depth - 1
    {
      assert rsk[k].pos < rsk[removeIth].pos < depth;
    }
  }
}
