/** Node identifiers (Identifier.hpp). An identifier is a 64-bit word
    (size_t): the combination of the hashes of a node's entries, with the
    tagging bit 63 telling a single-entry node (SEN, bit set) from a full
    node (FN, bit clear). The word equal to the seed 0 identifies no node.

    A word is written out as its 64 bits, bit i being w[i]. The hash of an
    entry is a parameter H of every operation: the model says nothing about
    it beyond its being a function. The invertible combine of two words is
    their bitwise exclusive or. */
module Identifiers {

  /** A SingleEntry: one key with its value. */
  datatype SingleEntry<K> = SingleEntry(key: seq<K>, value: int)

  /** A 64-bit word, bit i being w[i]. */
  type Word = w: seq<bool> | |w| == 64 witness ZeroWord()

  /** The word 0. */
  function ZeroWord(): seq<bool>
  {
    seq(64, i => false)
  }

  /** Identifier and RawIdentifier: the word hash_. */
  datatype Identifier = Identifier(hash: Word)

  /** tag_pos: the highest bit of a size_t. */
  const TagPos: nat := 63

  /** seed_: the default seed 0, whose tagging bit is clear. */
  const Seed: Word := ZeroWord()

  /** Bitwise exclusive or: the invertible combine of two words. */
  function Xor(a: Word, b: Word): (r: Word)
    ensures forall i :: 0 <= i < 64 ==> r[i] == (a[i] != b[i])
  {
    seq(64, i requires 0 <= i < 64 => a[i] != b[i])
  }

  /** The combine is associative. */
  lemma XorAssoc(p: Word, q: Word, r: Word)
    ensures Xor(Xor(p, q), r) == Xor(p, Xor(q, r))
  {
  }

  /** The combine is commutative. */
  lemma XorComm(p: Word, q: Word)
    ensures Xor(p, q) == Xor(q, p)
  {
  }

  /** The seed is neutral for the combine. */
  lemma XorSeed(p: Word)
    ensures Xor(p, Seed) == p && Xor(Seed, p) == p
  {
  }

  /** Combining a word twice takes it out again. */
  lemma XorCancel(p: Word, q: Word)
    ensures Xor(Xor(p, q), q) == p
  {
  }

  /** The default-constructed identifier holds the seed and identifies no node. */
  function Default(): (id: Identifier)
    ensures id.hash == Seed
    ensures Empty(id) && !IsSen(id) && !IsFn(id)
  {
    Identifier(Seed)
  }

  /** empty(): the hash equals the seed. */
  predicate Empty(id: Identifier)
  {
    id.hash == Seed
  }

  /** is_sen(): not empty and the tagging bit is set. */
  predicate IsSen(id: Identifier)
  {
    !Empty(id) && id.hash[TagPos]
  }

  /** is_fn(): not empty and the tagging bit is clear. */
  predicate IsFn(id: Identifier)
  {
    !Empty(id) && !id.hash[TagPos]
  }

  /** An identifier is exactly one of empty, SEN and FN. */
  lemma TagsExclusive(id: Identifier)
    ensures Empty(id) <==> !IsSen(id) && !IsFn(id)
    ensures !(IsSen(id) && IsFn(id))
  {
  }

  /** tag_as_sen: set the tagging bit, keeping the other bits. The result
      is never the seed. */
  function TagAsSen(h: Word): (r: Word)
    ensures r[TagPos] && r[..TagPos] == h[..TagPos] && r != Seed
  {
    h[TagPos := true]
  }

  /** tag_as_fn: clear the tagging bit, keeping the other bits. */
  function TagAsFn(h: Word): (r: Word)
    ensures !r[TagPos] && r[..TagPos] == h[..TagPos]
  {
    h[TagPos := false]
  }

  /** hash_and_combine(entry, seed): the entry's hash combined with seed;
      combining the same entry twice gives seed back. */
  function HashAndCombine<K>(H: SingleEntry<K> -> Word, e: SingleEntry<K>, seed: Word): (r: Word)
    ensures Xor(r, H(e)) == seed
  {
    XorCancel(seed, H(e));
    Xor(seed, H(e))
  }

  /** encode_single_entry: the identifier of the node holding only e. */
  function EncodeSingleEntry<K>(H: SingleEntry<K> -> Word, e: SingleEntry<K>): (id: Identifier)
    ensures IsSen(id)
  {
    Identifier(TagAsSen(HashAndCombine(H, e, Seed)))
  }

  /** The seed combined with the hashes of all entries, in order. */
  function XorAll<K>(H: SingleEntry<K> -> Word, es: seq<SingleEntry<K>>): Word
  {
    if es == [] then Seed else Xor(XorAll(H, es[..|es| - 1]), H(es[|es| - 1]))
  }

  /** The identifier of a node with n entries whose combined hash is h:
      the seed for no entry, h SEN-tagged for one, h FN-tagged for more. */
  function FromWord(n: nat, h: Word): Identifier
  {
    if n == 0 then Identifier(Seed)
    else if n == 1 then Identifier(TagAsSen(h))
    else Identifier(TagAsFn(h))
  }

  /** The identifier of the node holding the entries es. */
  function FromEntries<K>(H: SingleEntry<K> -> Word, es: seq<SingleEntry<K>>): Identifier
  {
    FromWord(|es|, XorAll(H, es))
  }

  /** hash_iterable: the loop combining every entry into the seed. */
  method HashIterable<K>(H: SingleEntry<K> -> Word, es: seq<SingleEntry<K>>) returns (id: Identifier)
    ensures id == FromEntries(H, es)
  {
    if |es| == 0 {
      return Identifier(Seed);
    }
    var hash := Seed;
    var n := 0;
    while n < |es|
      invariant 0 <= n <= |es|
      invariant hash == XorAll(H, es[..n])
    {
      assert es[..n + 1][..n] == es[..n];
      hash := HashAndCombine(H, es[n], hash);
      n := n + 1;
    }
    assert es[..n] == es;
    if n == 1 {
      return Identifier(TagAsSen(hash));
    }
    return Identifier(TagAsFn(hash));
  }

  /** The single-entry identifier is the identifier built from one entry. */
  lemma EncodeIsFromOne<K>(H: SingleEntry<K> -> Word, e: SingleEntry<K>)
    ensures EncodeSingleEntry(H, e) == FromEntries(H, [e])
  {
    assert [e][..0] == [];
    assert XorAll(H, [e]) == Xor(XorAll(H, []), H(e));
  }

  /** A word for no entry is the default identifier, one for one entry is
      an SEN, one for more is FN-tagged, and an FN unless its bits other
      than the tag are all zero. */
  lemma WordTags(n: nat, h: Word)
    ensures n == 0 ==> FromWord(n, h) == Default()
    ensures n == 1 <==> IsSen(FromWord(n, h))
    ensures n >= 2 ==> !FromWord(n, h).hash[TagPos]
    ensures n >= 2 ==> (IsFn(FromWord(n, h)) <==> h[..TagPos] != Seed[..TagPos])
  {
    if n >= 2 && h[..TagPos] == Seed[..TagPos] {
      assert TagAsFn(h) == Seed;
    }
  }

  /** Building from no entry gives the empty identifier, from one entry a
      SEN identifier, and from two or more an FN-tagged word, which is an FN
      unless the entry hashes cancel out. */
  lemma {:induction false} FromEntriesTags<K>(H: SingleEntry<K> -> Word, es: seq<SingleEntry<K>>)
    ensures |es| == 0 ==> FromEntries(H, es) == Default()
    ensures |es| == 1 <==> IsSen(FromEntries(H, es))
    ensures |es| >= 2 ==> !FromEntries(H, es).hash[TagPos]
    ensures |es| >= 2 ==> (IsFn(FromEntries(H, es)) <==> XorAll(H, es)[..TagPos] != Seed[..TagPos])
  {
    WordTags(|es|, XorAll(H, es));
  }

  /** addEntry: an empty identifier becomes the entry's SEN identifier;
      otherwise the entry is combined in and the result is FN-tagged. For
      identifiers of nodes not stored in place the SEN and FN branches of
      the source compute the same word, so they are one branch here. */
  function AddEntry<K>(H: SingleEntry<K> -> Word, id: Identifier, e: SingleEntry<K>): (r: Identifier)
    ensures Empty(id) ==> IsSen(r)
    ensures !Empty(id) ==> !r.hash[TagPos]
  {
    if Empty(id) then EncodeSingleEntry(H, e)
    else Identifier(TagAsFn(HashAndCombine(H, e, id.hash)))
  }

  /** removeEntry: the identifier must be an FN; the entry's hash is
      combined out and the result is tagged SEN when becomesSen is set. */
  function RemoveEntry<K>(H: SingleEntry<K> -> Word, id: Identifier, e: SingleEntry<K>, becomesSen: bool)
    : (r: Identifier)
    requires IsFn(id)
    ensures becomesSen ==> IsSen(r)
    ensures !becomesSen ==> !r.hash[TagPos]
  {
    var h := HashAndCombine(H, e, id.hash);
    if becomesSen then Identifier(TagAsSen(h)) else Identifier(TagAsFn(h))
  }

  /** Clearing the tagging bit keeps every other bit. */
  lemma TagAsFnBits(a: Word, h: Word)
    requires a[..TagPos] == h[..TagPos]
    ensures TagAsFn(a) == TagAsFn(h)
  {
    assert forall i :: 0 <= i < TagPos ==> a[i] == a[..TagPos][i];
    assert forall i :: 0 <= i < TagPos ==> h[i] == h[..TagPos][i];
  }

  /** Setting the tagging bit keeps every other bit. */
  lemma TagAsSenBits(a: Word, h: Word)
    requires a[..TagPos] == h[..TagPos]
    ensures TagAsSen(a) == TagAsSen(h)
  {
    assert forall i :: 0 <= i < TagPos ==> a[i] == a[..TagPos][i];
    assert forall i :: 0 <= i < TagPos ==> h[i] == h[..TagPos][i];
  }

  /** The bits other than the tag of a combination depend only on those
      bits of the words combined. */
  lemma XorLowBits(a: Word, h: Word, x: Word)
    requires a[..TagPos] == h[..TagPos]
    ensures Xor(a, x)[..TagPos] == Xor(h, x)[..TagPos]
  {
    assert forall i :: 0 <= i < TagPos ==> a[i] == a[..TagPos][i];
    assert forall i :: 0 <= i < TagPos ==> h[i] == h[..TagPos][i];
  }

  /** Removing an entry just added restores the identifier, when the
      addition gave an FN and becomesSen says whether it was an SEN before. */
  lemma AddThenRemove<K>(H: SingleEntry<K> -> Word, id: Identifier, e: SingleEntry<K>)
    requires IsFn(AddEntry(H, id, e))
    ensures RemoveEntry(H, AddEntry(H, id, e), e, IsSen(id)) == id
  {
    var a := AddEntry(H, id, e).hash;
    var x := HashAndCombine(H, e, id.hash);
    XorLowBits(a, x, H(e));
    assert Xor(x, H(e)) == id.hash;
    if IsSen(id) {
      TagAsSenBits(Xor(a, H(e)), id.hash);
      assert id.hash[TagPos := true] == id.hash;
    } else {
      TagAsFnBits(Xor(a, H(e)), id.hash);
      assert id.hash[TagPos := false] == id.hash;
    }
  }

  /** Adding back an entry just removed restores the FN identifier, unless
      the removal left the empty word. */
  lemma RemoveThenAdd<K>(H: SingleEntry<K> -> Word, id: Identifier, e: SingleEntry<K>, becomesSen: bool)
    requires IsFn(id) && !Empty(RemoveEntry(H, id, e, becomesSen))
    ensures AddEntry(H, RemoveEntry(H, id, e, becomesSen), e) == id
  {
    var r := RemoveEntry(H, id, e, becomesSen).hash;
    var x := HashAndCombine(H, e, id.hash);
    XorLowBits(r, x, H(e));
    TagAsFnBits(Xor(r, H(e)), id.hash);
    assert id.hash[TagPos := false] == id.hash;
  }

  /** Adding an entry to the identifier of n entries with combined hash h
      gives the identifier of n + 1 entries, unless that word was empty
      while n was not zero. */
  lemma AddToWord<K>(H: SingleEntry<K> -> Word, n: nat, h: Word, e: SingleEntry<K>)
    requires n == 0 ==> h == Seed
    requires n == 0 || !Empty(FromWord(n, h))
    ensures AddEntry(H, FromWord(n, h), e) == FromWord(n + 1, Xor(h, H(e)))
  {
    if n >= 1 {
      var a := FromWord(n, h).hash;
      XorLowBits(a, h, H(e));
      TagAsFnBits(Xor(a, H(e)), Xor(h, H(e)));
    }
  }

  /** The combined hash of es + [e] combines the hash of e into that of es. */
  lemma XorAllSnoc<K>(H: SingleEntry<K> -> Word, es: seq<SingleEntry<K>>, e: SingleEntry<K>)
    ensures XorAll(H, es + [e]) == Xor(XorAll(H, es), H(e))
  {
    var s := es + [e];
    assert s[..|s| - 1] == es && s[|s| - 1] == e;
  }

  /** Adding an entry to the identifier of es gives the identifier of
      es + [e], unless the entries of es cancelled out to the empty word. */
  lemma {:induction false} AddEntryExtends<K>(H: SingleEntry<K> -> Word, es: seq<SingleEntry<K>>, e: SingleEntry<K>)
    requires es == [] || !Empty(FromEntries(H, es))
    ensures AddEntry(H, FromEntries(H, es), e) == FromEntries(H, es + [e])
  {
    XorAllSnoc(H, es, e);
    AddToWord(H, |es|, XorAll(H, es), e);
  }

  /** The identifier reached by adding the entries one by one to id. */
  function AddAll<K>(H: SingleEntry<K> -> Word, id: Identifier, es: seq<SingleEntry<K>>): Identifier
  {
    if es == [] then id else AddEntry(H, AddAll(H, id, es[..|es| - 1]), es[|es| - 1])
  }

  /** No non-empty proper prefix of es cancels out to the empty word. */
  predicate NoCancellingPrefix<K>(H: SingleEntry<K> -> Word, es: seq<SingleEntry<K>>)
  {
    forall n :: 0 < n < |es| ==> !Empty(FromEntries(H, es[..n]))
  }

  /** Building from a list equals adding its entries one by one to the
      default identifier, as long as no prefix cancels out. */
  lemma {:induction false} FromEntriesByAdding<K>(H: SingleEntry<K> -> Word, es: seq<SingleEntry<K>>)
    requires NoCancellingPrefix(H, es)
    ensures AddAll(H, Default(), es) == FromEntries(H, es)
  {
    if es != [] {
      var init := es[..|es| - 1];
      assert NoCancellingPrefix(H, init) by {
        forall n | 0 < n < |init|
          ensures !Empty(FromEntries(H, init[..n]))
        {
          assert init[..n] == es[..n];
        }
      }
      FromEntriesByAdding(H, init);
      if init != [] {
        assert es[..|init|] == init;
      }
      AddEntryExtends(H, init, es[|es| - 1]);
      assert init + [es[|es| - 1]] == es;
    }
  }

  /** The combined hash of a concatenation is the combination of both. */
  lemma {:induction false} XorAllConcat<K>(H: SingleEntry<K> -> Word, es: seq<SingleEntry<K>>,
                                           fs: seq<SingleEntry<K>>)
    ensures XorAll(H, es + fs) == Xor(XorAll(H, es), XorAll(H, fs))
    decreases |fs|
  {
    if fs == [] {
      assert es + fs == es;
      XorSeed(XorAll(H, es));
    } else {
      var fs' := fs[..|fs| - 1];
      XorAllConcat(H, es, fs');
      var s := es + fs;
      assert s[..|s| - 1] == es + fs' && s[|s| - 1] == fs[|fs| - 1];
      XorAssoc(XorAll(H, es), XorAll(H, fs'), H(fs[|fs| - 1]));
    }
  }

  /** Taking one entry out of the middle of a list takes its hash out of
      the combined hash. */
  lemma XorAllRemove<K>(H: SingleEntry<K> -> Word, a: seq<SingleEntry<K>>, x: SingleEntry<K>,
                        b: seq<SingleEntry<K>>)
    ensures XorAll(H, a + [x] + b) == Xor(XorAll(H, a + b), H(x))
  {
    XorAllConcat(H, a + [x], b);
    XorAllSnoc(H, a, x);
    XorAllConcat(H, a, b);
    var p, q, r := XorAll(H, a), H(x), XorAll(H, b);
    calc {
      Xor(Xor(p, q), r);
      { XorAssoc(p, q, r); XorComm(q, r); }
      Xor(p, Xor(r, q));
      { XorAssoc(p, r, q); }
      Xor(Xor(p, r), q);
    }
  }

  /** The combined hash depends only on the multiset of entries. */
  lemma {:induction false} XorAllPermutation<K>(H: SingleEntry<K> -> Word, es: seq<SingleEntry<K>>,
                                                fs: seq<SingleEntry<K>>)
    requires multiset(es) == multiset(fs)
    ensures XorAll(H, es) == XorAll(H, fs)
    decreases |es|
  {
    if es != [] {
      var x := es[|es| - 1];
      var init := es[..|es| - 1];
      var a, b := PickOut(es, fs);
      XorAllPermutation(H, init, a + b);
      XorAllRemove(H, a, x, b);
    } else {
      assert |fs| == |multiset(fs)| == 0;
    }
  }

  /** Where the last entry of es sits in a permutation fs of es, and the
      rest of fs is a permutation of the rest of es. */
  lemma PickOut<T>(es: seq<T>, fs: seq<T>) returns (a: seq<T>, b: seq<T>)
    requires es != [] && multiset(es) == multiset(fs)
    ensures fs == a + [es[|es| - 1]] + b
    ensures multiset(es[..|es| - 1]) == multiset(a + b)
  {
    var x := es[|es| - 1];
    var init := es[..|es| - 1];
    assert es == init + [x];
    assert x in multiset(fs);
    var i :| 0 <= i < |fs| && fs[i] == x;
    a, b := fs[..i], fs[i + 1..];
    assert fs == a + [x] + b;
    calc {
      multiset(init);
      multiset(es) - multiset{x};
      multiset(fs) - multiset{x};
      multiset(a + b);
    }
  }

  /** The identifier of a node does not depend on the order of its entries. */
  lemma {:induction false} FromEntriesPermutation<K>(H: SingleEntry<K> -> Word, es: seq<SingleEntry<K>>,
                                                     fs: seq<SingleEntry<K>>)
    requires multiset(es) == multiset(fs)
    ensures FromEntries(H, es) == FromEntries(H, fs)
  {
    XorAllPermutation(H, es, fs);
    assert |es| == |multiset(es)| == |multiset(fs)| == |fs|;
  }

  /** changeValue: the old entry's hash is replaced by the hash of the
      entry with the new value, and the SEN/FN tag is kept. The new value
      must not be zero. */
  function ChangeValue<K>(H: SingleEntry<K> -> Word, id: Identifier, oldEntry: SingleEntry<K>, newValue: int)
    : (r: Identifier)
    requires newValue != 0
    ensures IsSen(id) ==> IsSen(r)
    ensures !IsSen(id) ==> !r.hash[TagPos]
  {
    var isSen := IsSen(id);
    var h := HashAndCombine(H, oldEntry, HashAndCombine(H, SingleEntry(oldEntry.key, newValue), id.hash));
    if isSen then Identifier(TagAsSen(h)) else Identifier(TagAsFn(h))
  }

  /** Changing a value in the identifier of n >= 1 entries with combined
      hash h combines the two entry hashes into h. */
  lemma ChangeInWord<K>(H: SingleEntry<K> -> Word, n: nat, h: Word, oldEntry: SingleEntry<K>, newValue: int)
    requires n >= 1 && newValue != 0
    ensures ChangeValue(H, FromWord(n, h), oldEntry, newValue) ==
            FromWord(n, Xor(h, Xor(H(SingleEntry(oldEntry.key, newValue)), H(oldEntry))))
  {
    var a := FromWord(n, h).hash;
    var d := Xor(H(SingleEntry(oldEntry.key, newValue)), H(oldEntry));
    XorAssoc(a, H(SingleEntry(oldEntry.key, newValue)), H(oldEntry));
    XorLowBits(a, h, d);
    if n == 1 {
      TagAsSenBits(Xor(a, d), Xor(h, d));
    } else {
      TagAsFnBits(Xor(a, d), Xor(h, d));
    }
  }

  /** Replacing one entry of a list changes the combined hash by the two
      entry hashes. */
  lemma {:induction false} XorAllReplace<K>(H: SingleEntry<K> -> Word, es: seq<SingleEntry<K>>, i: nat,
                                            n: SingleEntry<K>)
    requires i < |es|
    ensures XorAll(H, es[i := n]) == Xor(XorAll(H, es), Xor(H(n), H(es[i])))
  {
    var a, b := es[..i], es[i + 1..];
    assert es == a + [es[i]] + b;
    assert es[i := n] == a + [n] + b;
    XorAllRemove(H, a, es[i], b);
    XorAllRemove(H, a, n, b);
    var s, o := XorAll(H, a + b), H(es[i]);
    calc {
      Xor(Xor(s, o), Xor(H(n), o));
      { XorAssoc(Xor(s, o), H(n), o); }
      Xor(Xor(Xor(s, o), H(n)), o);
      { XorAssoc(s, o, H(n)); XorComm(o, H(n)); XorAssoc(s, H(n), o); }
      Xor(Xor(Xor(s, H(n)), o), o);
      { XorCancel(Xor(s, H(n)), o); }
      Xor(s, H(n));
    }
  }

  /** Changing the value of entry i of a node gives the identifier of the
      node with that entry's value changed. */
  lemma {:induction false} ChangeValueRebuilds<K>(H: SingleEntry<K> -> Word, es: seq<SingleEntry<K>>, i: nat,
                                                  newValue: int)
    requires i < |es| && newValue != 0
    ensures ChangeValue(H, FromEntries(H, es), es[i], newValue) ==
            FromEntries(H, es[i := SingleEntry(es[i].key, newValue)])
  {
    XorAllReplace(H, es, i, SingleEntry(es[i].key, newValue));
    ChangeInWord(H, |es|, XorAll(H, es), es[i], newValue);
  }

  /** combine: an empty identifier takes the other's word; a non-empty one
      combined with a non-empty other gets the FN-tagged combination of
      the seed and both words. */
  function Combine(id: Identifier, other: Identifier): (r: Identifier)
    ensures Empty(id) ==> r == other
    ensures Empty(other) ==> r == id
    ensures !Empty(id) && !Empty(other) ==> !r.hash[TagPos]
  {
    if Empty(id) then other
    else if !Empty(other) then Identifier(TagAsFn(Xor(Xor(Seed, id.hash), other.hash)))
    else id
  }

  /** Combining the identifiers of n and m entries gives the identifier of
      n + m entries with both hashes combined, when neither is empty. */
  lemma CombineWords(n: nat, h: Word, m: nat, g: Word)
    requires !Empty(FromWord(n, h)) && !Empty(FromWord(m, g))
    ensures Combine(FromWord(n, h), FromWord(m, g)) == FromWord(n + m, Xor(h, g))
  {
    var a, b := FromWord(n, h).hash, FromWord(m, g).hash;
    XorSeed(a);
    XorLowBits(a, h, b);
    XorComm(h, b);
    XorComm(h, g);
    XorLowBits(b, g, h);
    TagAsFnBits(Xor(a, b), Xor(h, g));
  }

  /** Combining the identifiers of two nodes without common entries gives
      the identifier of the node holding the entries of both. */
  lemma {:induction false} CombineFromEntries<K>(H: SingleEntry<K> -> Word, es: seq<SingleEntry<K>>,
                                                 fs: seq<SingleEntry<K>>)
    requires !Empty(FromEntries(H, es)) && !Empty(FromEntries(H, fs))
    ensures Combine(FromEntries(H, es), FromEntries(H, fs)) == FromEntries(H, es + fs)
  {
    XorAllConcat(H, es, fs);
    CombineWords(|es|, XorAll(H, es), |fs|, XorAll(H, fs));
  }
}
