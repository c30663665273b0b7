/** Tagged words (TaggedPointerWrapper.hpp): a pointer-sized word whose low
    bits, below the alignment alignedTo, hold a tag and whose other bits
    hold an aligned pointer or a key part.

    A word is a number below 2^64 (uintptr_t). For an alignment a that is
    a power of two, masking with tagMask = a - 1 keeps the remainder
    modulo a, and masking with pointerMask = ~tagMask clears it; the tags
    written are 0 and 1, so or-ing one in sets at most the lowest bit. */
module TaggedPointers {

  /** 2^64: the number of values of a uintptr_t. */
  const WordSize: nat := 0x1_0000_0000_0000_0000

  /** A uintptr_t. */
  type Bits = b: nat | b < WordSize

  /** INT_TAG and POINTER_TAG of KeyPartTaggedPointer. */
  const IntTag: nat := 1
  const PointerTag: nat := 0

  /** COMPRESSED_TAG and NON_COMPRESSED_TAG of
      CompressedBoolHyperTrieTaggedPointer. */
  const CompressedTag: nat := 1
  const NonCompressedTag: nat := 0

  /** A power of two, halving down to 1. */
  predicate PowerOfTwo(a: nat)
    decreases a
  {
    a == 1 || (a > 1 && a % 2 == 0 && PowerOfTwo(a / 2))
  }

  /** The static assertions on alignedTo: a power of two, and at least 2
      so that a tag fits below it. */
  predicate ValidAlignment(a: nat)
  {
    a > 1 && PowerOfTwo(a)
  }

  /** word & tagMask. */
  function Low(x: Bits, a: nat): (t: nat)
    requires a > 0
    ensures t < a && t <= x
  {
    x % a
  }

  /** word & pointerMask. */
  function High(x: Bits, a: nat): (p: Bits)
    requires a > 0
    ensures p <= x && p % a == 0
  {
    ModOfMultiple(a, x / a);
    x - x % a
  }

  /** word |= tag, for the tags 0 and 1 that the code writes. */
  function OrTag(x: Bits, tag: nat): (r: Bits)
    requires tag <= 1
    ensures r % 2 == if tag == 1 then 1 else x % 2
  {
    if tag == 0 || x % 2 == 1 then x else x + 1
  }

  /** a * m + a <= a * n when m < n. */
  lemma {:induction false} MulStep(a: nat, m: nat, n: nat)
    requires m < n
    ensures a * m + a <= a * n
    decreases n
  {
    assert a * n == a * (n - 1) + a;
    if m < n - 1 {
      MulStep(a, m, n - 1);
    }
  }

  /** a * q + s leaves the remainder s and the quotient q. */
  lemma ModOfSum(a: nat, q: nat, s: nat)
    requires 0 <= s < a
    ensures (a * q + s) % a == s && (a * q + s) / a == q
  {
    var x := a * q + s;
    var q' := x / a;
    if q' > q {
      MulStep(a, q, q');
    } else if q' < q {
      MulStep(a, q', q);
    }
  }

  /** A multiple of a leaves no remainder. */
  lemma ModOfMultiple(a: nat, q: nat)
    requires a > 0
    ensures (a * q) % a == 0
  {
    ModOfSum(a, q, 0);
  }

  /** For an alignment of at least 2, which is even, the tag bits have the
      parity of the whole word. */
  lemma RemainderParity(a: nat, x: Bits)
    requires ValidAlignment(a)
    ensures (x % a) % 2 == x % 2
  {
    var q, r, h := x / a, x % a, a / 2;
    assert a == 2 * h;
    assert a * q == 2 * (h * q);
    assert x == 2 * (h * q + r / 2) + r % 2;
    ModOfSum(2, h * q + r / 2, r % 2);
  }

  /** Adding one below the next multiple of a raises the remainder by one
      and keeps the multiple. */
  lemma ModIncrement(a: nat, x: Bits)
    requires a > 0 && x % a + 1 < a
    ensures (x + 1) % a == x % a + 1 && (x + 1) - (x + 1) % a == x - x % a
  {
    var q, r := x / a, x % a;
    assert x + 1 == a * q + (r + 1);
    ModOfSum(a, q, r + 1);
  }

  /** Or-ing the int tag into a word keeps its high bits and makes its tag
      odd: the tag becomes tag | 1. */
  lemma OrIntTagBits(a: nat, x: Bits)
    requires ValidAlignment(a)
    ensures High(OrTag(x, IntTag), a) == High(x, a)
    ensures Low(OrTag(x, IntTag), a) == if x % 2 == 1 then Low(x, a) else Low(x, a) + 1
  {
    if x % 2 == 0 {
      RemainderParity(a, x);
      assert a % 2 == 0;
      assert x % a + 1 < a;
      ModIncrement(a, x);
    }
  }

  /** setInt then getInt and getTag: a number whose tag bits are clear
      comes back unchanged, tagged INT_TAG. */
  lemma IntRoundTrip(a: nat, number: Bits)
    requires ValidAlignment(a) && number % a == 0
    ensures High(OrTag(number, IntTag), a) == number
    ensures Low(OrTag(number, IntTag), a) == IntTag
  {
    RemainderParity(a, number);
    OrIntTagBits(a, number);
  }

  /** What setInt leaves in the word, for any number. */
  lemma SetIntBits(a: nat, number: Bits)
    requires ValidAlignment(a)
    ensures High(OrTag(number, IntTag), a) == High(number, a)
    ensures Low(OrTag(number, IntTag), a) % 2 == 1
    ensures number % a == 0 ==>
              High(OrTag(number, IntTag), a) == number && Low(OrTag(number, IntTag), a) == IntTag
  {
    OrIntTagBits(a, number);
    RemainderParity(a, OrTag(number, IntTag));
    if number % a == 0 {
      IntRoundTrip(a, number);
    }
  }

  /** setPointer then getPointer and getTag: an aligned pointer comes back
      unchanged, tagged POINTER_TAG. */
  lemma PointerRoundTrip(a: nat, pointer: Bits)
    requires ValidAlignment(a) && pointer % a == 0
    ensures High(OrTag(pointer, PointerTag), a) == pointer
    ensures Low(OrTag(pointer, PointerTag), a) == PointerTag
  {
  }

  /** KeyPartTaggedPointer: either an aligned pointer tagged POINTER_TAG
      or a key part tagged INT_TAG. */
  class KeyPartTaggedPointer {
    const alignedTo: nat
    var bits: Bits

    /** KeyPartTaggedPointer(T *pointer): setPointer. */
    constructor FromPointer(a: nat, pointer: Bits)
      requires ValidAlignment(a) && pointer % a == 0
      ensures alignedTo == a && bits == OrTag(pointer, PointerTag)
      ensures GetPointer() == pointer && GetTag() == PointerTag
    {
      alignedTo := a;
      bits := OrTag(pointer, PointerTag);
      PointerRoundTrip(a, pointer);
    }

    /** KeyPartTaggedPointer(key_part_type_t &number): setInt. */
    constructor FromInt(a: nat, number: Bits)
      requires ValidAlignment(a)
      ensures alignedTo == a && bits == OrTag(number, IntTag)
      ensures number % a == 0 ==> GetInt() == number && GetTag() == IntTag
    {
      alignedTo := a;
      bits := OrTag(number, IntTag);
      if number % a == 0 {
        IntRoundTrip(a, number);
      }
    }

    /** setPointer: the pointer must be aligned; the tag becomes
        POINTER_TAG whatever was stored before, an int included. */
    method SetPointer(pointer: Bits)
      requires ValidAlignment(alignedTo) && pointer % alignedTo == 0
      modifies this
      ensures bits == OrTag(pointer, PointerTag)
      ensures GetPointer() == pointer && GetTag() == PointerTag
    {
      bits := pointer;
      bits := OrTag(bits, PointerTag);
      PointerRoundTrip(alignedTo, pointer);
    }

    /** setInt: the number's bits with INT_TAG or-ed in. */
    method SetInt(number: Bits)
      requires ValidAlignment(alignedTo)
      modifies this
      ensures bits == OrTag(number, IntTag)
      ensures GetInt() == High(number, alignedTo) && GetTag() % 2 == 1
      ensures number % alignedTo == 0 ==> GetInt() == number && GetTag() == IntTag
    {
      bits := number;
      bits := OrTag(bits, IntTag);
      SetIntBits(alignedTo, number);
    }

    /** getPointer: the word without its tag bits. */
    function GetPointer(): (p: Bits)
      requires alignedTo > 0
      reads this
      ensures p % alignedTo == 0
    {
      High(bits, alignedTo)
    }

    /** getTag: the tag bits, always below alignedTo. */
    function GetTag(): (t: nat)
      requires alignedTo > 0
      reads this
      ensures t < alignedTo
    {
      Low(bits, alignedTo)
    }

    /** getInt: the word without its tag bits. */
    function GetInt(): (n: Bits)
      requires alignedTo > 0
      reads this
      ensures n % alignedTo == 0
    {
      High(bits, alignedTo)
    }
  }

  /** CompressedBoolHyperTrieTaggedPointer: either a compressed node
      pointer tagged COMPRESSED_TAG or a node pointer tagged
      NON_COMPRESSED_TAG; the word 0 is a null pointer. */
  class CompressedBoolHyperTrieTaggedPointer {
    const alignedTo: nat
    var bits: Bits

    /** The constructor from a compressed node: clearTag, then
        setCompressedNode, whose pointer must be aligned. The word is never
        null afterwards, even for a null compressed node. */
    constructor FromCompressedNode(a: nat, compressedNode: Bits)
      requires ValidAlignment(a) && compressedNode % a == 0
      ensures alignedTo == a && bits == OrTag(compressedNode, CompressedTag)
      ensures GetTag() == CompressedTag && GetCompressedNode() == compressedNode && !IsEmpty()
    {
      alignedTo := a;
      bits := OrTag(compressedNode, CompressedTag);
      IntRoundTrip(a, compressedNode);
    }

    /** The constructor from a node: clearTag, then setNode, which does
        not check the alignment; an aligned node is tagged
        NON_COMPRESSED_TAG and is empty iff it is null. */
    constructor FromNode(a: nat, node: Bits)
      requires ValidAlignment(a)
      ensures alignedTo == a && bits == OrTag(node, NonCompressedTag)
      ensures node % a == 0 ==> GetTag() == NonCompressedTag && GetNode() == node
      ensures IsEmpty() <==> node == 0
    {
      alignedTo := a;
      bits := OrTag(node, NonCompressedTag);
    }

    /** The constructor from an already tagged word: kept as it is. */
    constructor FromTagged(a: nat, ptr: Bits)
      requires ValidAlignment(a)
      ensures alignedTo == a && bits == ptr
    {
      alignedTo := a;
      bits := ptr;
    }

    /** The default constructor: the null pointer, which is empty. */
    constructor Null(a: nat)
      requires ValidAlignment(a)
      ensures alignedTo == a && bits == 0 && IsEmpty()
    {
      alignedTo := a;
      bits := 0;
    }

    /** clearTag (protected): drop the tag bits. */
    method ClearTag()
      requires alignedTo > 0
      modifies this
      ensures bits == High(old(bits), alignedTo) && GetTag() == 0
    {
      bits := High(bits, alignedTo);
    }

    /** getTag: the tag bits, always below alignedTo. */
    function GetTag(): (t: nat)
      requires alignedTo > 0
      reads this
      ensures t < alignedTo
    {
      Low(bits, alignedTo)
    }

    /** getPointer: the whole word, tag included. */
    function GetPointer(): Bits
      reads this
    {
      bits
    }

    /** isEmpty: the word is the null pointer. */
    predicate IsEmpty()
      reads this
    {
      bits == 0
    }

    /** getCompressedNode: the word without its tag bits. */
    function GetCompressedNode(): (p: Bits)
      requires alignedTo > 0
      reads this
      ensures p % alignedTo == 0
    {
      High(bits, alignedTo)
    }

    /** getNode: the word without its tag bits. */
    function GetNode(): (p: Bits)
      requires alignedTo > 0
      reads this
      ensures p % alignedTo == 0
    {
      High(bits, alignedTo)
    }
  }
}
