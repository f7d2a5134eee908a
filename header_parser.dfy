/**
 * The trie node header decoder of
 * prover/src/storage_inclusion/storage_trie_proof/node_parser/header_parser.rs,
 * as the arithmetic its circuit constrains.
 *
 * A header starts with a node-kind prefix in the top `prefixLength` bits of
 * the first byte; the remaining low bits hold the nibble count, or their
 * all-ones value followed by a second byte to add. Longer headers (a second
 * byte of 255) are refused. A constraint the circuit cannot satisfy is an
 * `Err` here.
 */
module HeaderParser {
  import opened Arith
  import opened Bits
  import opened Wrappers

  /** The fields are private in the source: the two constructors below are the only descriptors. */
  datatype HeaderDescriptor = HeaderDescriptor(maskedPrefix: Byte, prefixLength: nat)

  datatype HeaderOutput = HeaderOutput(nibbleCount: nat, resultingOffset: nat)

  datatype HeaderError =
    | PrefixMismatch           // the prefix bits of the first byte differ from the descriptor's
    | UnsupportedHeaderLength  // first value all ones and second byte 255: a header over two bytes

  /** The prefix fits in a byte and the masked prefix has only zeros below it. */
  predicate WellFormed(d: HeaderDescriptor) {
    d.prefixLength <= 8 && Pow2(ValueWidth(d)) * Shr(d.maskedPrefix, ValueWidth(d)) == d.maskedPrefix
  }

  /** Width of the value field below the prefix. */
  function ValueWidth(d: HeaderDescriptor): nat {
    if d.prefixLength <= 8 then 8 - d.prefixLength else 0
  }

  /** `HeaderDescriptor::branch_without_value`: prefix 0b10, two bits. */
  function BranchWithoutValue(): (d: HeaderDescriptor)
    ensures WellFormed(d) && MaxFirstByteValue(d) == 63
  {
    HeaderDescriptor(0x80, 2)
  }

  /** `HeaderDescriptor::hashed_value_leaf`: prefix 0b001, three bits. */
  function HashedValueLeaf(): (d: HeaderDescriptor)
    ensures WellFormed(d) && MaxFirstByteValue(d) == 31
  {
    HeaderDescriptor(0x20, 3)
  }

  /** `0b11111111 >> prefix_length`. */
  function MaxFirstByteValue(d: HeaderDescriptor): nat {
    Shr(255, d.prefixLength)
  }

  /** The bit loop of `define`: every bit from `8 - prefix_length` up is connected to the prefix's bit. */
  predicate PrefixMatches(firstByte: Byte, d: HeaderDescriptor)
    requires d.prefixLength <= 8
  {
    forall bitIdx :: 8 - d.prefixLength <= bitIdx < 8 ==> Bit(firstByte, bitIdx) == Bit(d.maskedPrefix, bitIdx)
  }

  /**
   * `define`: checks the prefix, then selects between the one-byte form
   * (value below its maximum) and the two-byte form (value at its maximum,
   * second byte below 255).
   */
  function Define(firstByte: Byte, secondByte: Byte, d: HeaderDescriptor): (r: Result<HeaderOutput, HeaderError>)
    requires WellFormed(d)
    ensures r == Err(PrefixMismatch) <==> !PrefixMatches(firstByte, d)
    ensures r.Ok? ==> r.value.resultingOffset in {1, 2}
    ensures r.Ok? ==> r.value.nibbleCount <= MaxFirstByteValue(d) + 254
  {
    if !PrefixMatches(firstByte, d) then Err(PrefixMismatch)
    else
      PrefixValue(firstByte, d);
      var firstValue: nat := firstByte - d.maskedPrefix;
      var maxFirstValue := MaxFirstByteValue(d);
      var firstValIsMax := firstValue == maxFirstValue;
      var secondValIsMax := secondByte == 255;
      var firstCaseAppliable := !firstValIsMax;
      var secondCaseAppliable := firstValIsMax && !secondValIsMax;
      if !(firstCaseAppliable || secondCaseAppliable) then Err(UnsupportedHeaderLength)
      else
        var nibbleCount := if firstCaseAppliable then firstValue else secondByte + maxFirstValue;
        var resultingOffset := if firstCaseAppliable then 1 else 2;
        Ok(HeaderOutput(nibbleCount, resultingOffset))
  }

  // ----- arithmetic meaning of the prefix check ----------------------------

  /** Bit j of `x >> s` is bit s + j of x. */
  lemma BitOfShr(x: nat, s: nat, j: nat)
    ensures Bit(Shr(x, s), j) == Bit(x, s + j)
  {
    ShrShr(x, s, j);
  }

  /** A number below 2^(s+w) has fewer than w bits left after s halvings. */
  lemma {:induction false} ShrBound(x: nat, s: nat, w: nat)
    requires x < Pow2(s + w)
    ensures Shr(x, s) < Pow2(w)
  {
    if s > 0 {
      assert Pow2(s + w) == 2 * Pow2(s - 1 + w);
      ShrBound(x / 2, s - 1, w);
    }
  }

  /** `2^k - 1` shifted right by j is `2^(k-j) - 1`. */
  lemma {:induction false} ShrAllOnes(k: nat, j: nat)
    requires j <= k
    ensures Shr(Pow2(k) - 1, j) == Pow2(k - j) - 1
  {
    if j > 0 {
      assert (Pow2(k) - 1) / 2 == Pow2(k - 1) - 1;
      ShrAllOnes(k - 1, j - 1);
    }
  }

  /** Shifting `2^s * q + v` right by s drops a low part v below 2^s. */
  lemma {:induction false} ShrAddLow(q: nat, v: nat, s: nat)
    requires v < Pow2(s)
    ensures Shr(Pow2(s) * q + v, s) == q
  {
    if s > 0 {
      var p := Pow2(s - 1);
      MulAssoc(2, p, q);
      assert Pow2(s) * q + v == 2 * (p * q) + v;
      assert (Pow2(s) * q + v) / 2 == p * q + v / 2;
      ShrAddLow(q, v / 2, s - 1);
    }
  }

  /** Two numbers below 2^w with the same w low bits are equal. */
  lemma EqualLowBits(a: nat, b: nat, w: nat)
    requires a < Pow2(w) && b < Pow2(w)
    requires forall j :: 0 <= j < w ==> Bit(a, j) == Bit(b, j)
    ensures a == b
  {
    forall j | 0 <= j < w
      ensures LsbBits(a, w)[j] == LsbBits(b, w)[j]
    {
      LsbBitsAt(a, w, j);
      LsbBitsAt(b, w, j);
    }
    assert LsbBits(a, w) == LsbBits(b, w);
    LeSumOfLsbBits(a, w);
    LeSumOfLsbBits(b, w);
  }

  /** The bit loop accepts exactly the bytes whose part above the value field equals the prefix's. */
  lemma PrefixMatchesIff(x: Byte, d: HeaderDescriptor)
    requires WellFormed(d)
    ensures PrefixMatches(x, d) <==> Shr(x, ValueWidth(d)) == Shr(d.maskedPrefix, ValueWidth(d))
  {
    var s, w := ValueWidth(d), d.prefixLength;
    var qx, qm := Shr(x, s), Shr(d.maskedPrefix, s);
    if PrefixMatches(x, d) {
      forall j | 0 <= j < w
        ensures Bit(qx, j) == Bit(qm, j)
      {
        BitOfShr(x, s, j);
        BitOfShr(d.maskedPrefix, s, j);
        assert Bit(x, s + j) == Bit(d.maskedPrefix, s + j);
      }
      Pow2Byte();
      ShrBound(x, s, w);
      ShrBound(d.maskedPrefix, s, w);
      EqualLowBits(qx, qm, w);
    }
    if qx == qm {
      forall bitIdx | s <= bitIdx < 8
        ensures Bit(x, bitIdx) == Bit(d.maskedPrefix, bitIdx)
      {
        BitOfShr(x, s, bitIdx - s);
        BitOfShr(d.maskedPrefix, s, bitIdx - s);
      }
    }
  }

  /** The all-ones value field is 2^width - 1. */
  lemma MaxIsAllOnes(d: HeaderDescriptor)
    requires WellFormed(d)
    ensures MaxFirstByteValue(d) == Pow2(ValueWidth(d)) - 1
  {
    Pow2Byte();
    ShrAllOnes(8, d.prefixLength);
  }

  /** After a matching prefix, `first_byte - masked_prefix` is the value field: the low bits. */
  lemma PrefixValue(x: Byte, d: HeaderDescriptor)
    requires WellFormed(d) && PrefixMatches(x, d)
    ensures x - d.maskedPrefix == Low(x, ValueWidth(d))
    ensures x - d.maskedPrefix <= MaxFirstByteValue(d)
  {
    PrefixMatchesIff(x, d);
    MaxIsAllOnes(d);
  }

  // ----- the header layout, as an encoder ----------------------------------

  /** The largest nibble count a two-byte header can carry, plus one. */
  function NibbleBound(d: HeaderDescriptor): nat {
    MaxFirstByteValue(d) + 255
  }

  /**
   * The header the trie codec writes for `nibbleCount` nibbles when it fits
   * two bytes: the prefix plus the count, or the prefix plus the all-ones
   * value followed by the excess.
   */
  function EncodeHeader(d: HeaderDescriptor, nibbleCount: nat): (r: seq<Byte>)
    requires WellFormed(d) && nibbleCount < NibbleBound(d)
    ensures |r| == if nibbleCount < MaxFirstByteValue(d) then 1 else 2
  {
    PrefixRoom(d);
    var maxFirstValue := MaxFirstByteValue(d);
    if nibbleCount < maxFirstValue then [d.maskedPrefix + nibbleCount]
    else [d.maskedPrefix + maxFirstValue, nibbleCount - maxFirstValue]
  }

  /** The prefix leaves room for the whole value field. */
  lemma PrefixRoom(d: HeaderDescriptor)
    requires WellFormed(d)
    ensures d.maskedPrefix + MaxFirstByteValue(d) <= 255
  {
    var s, w := ValueWidth(d), d.prefixLength;
    var p, q := Pow2(s), Shr(d.maskedPrefix, s);
    MaxIsAllOnes(d);
    Pow2Add(s, w);
    Pow2Byte();
    ShrBound(d.maskedPrefix, s, w);
    MulMonotone(p, q, Pow2(w) - 1);
    Distribute(p, Pow2(w) - 1, 1);
  }

  /** Adding a value below the field width to the prefix keeps the prefix and stores the value. */
  lemma PrefixPlusValue(d: HeaderDescriptor, v: nat)
    requires WellFormed(d) && v <= MaxFirstByteValue(d)
    ensures d.maskedPrefix + v < 256
    ensures PrefixMatches(d.maskedPrefix + v, d)
  {
    PrefixRoom(d);
    MaxIsAllOnes(d);
    var s := ValueWidth(d);
    ShrAddLow(Shr(d.maskedPrefix, s), v, s);
    PrefixMatchesIff(d.maskedPrefix + v, d);
  }
  /** Decoding an encoded header gives its nibble count and length, whatever byte follows a one-byte header. */
  lemma DefineDecodesEncodeHeader(d: HeaderDescriptor, nibbleCount: nat, next: Byte)
    requires WellFormed(d) && nibbleCount < NibbleBound(d)
    ensures var e := EncodeHeader(d, nibbleCount);
      Define(e[0], if |e| == 2 then e[1] else next, d) == Ok(HeaderOutput(nibbleCount, |e|))
  {
    var e := EncodeHeader(d, nibbleCount);
    var maxFirstValue := MaxFirstByteValue(d);
    if nibbleCount < maxFirstValue {
      PrefixPlusValue(d, nibbleCount);
    } else {
      PrefixPlusValue(d, maxFirstValue);
    }
  }

  /** Every header `define` accepts is the encoding of the count it returns, so no two counts share a header. */
  lemma DefineAcceptsOnlyEncodings(firstByte: Byte, secondByte: Byte, d: HeaderDescriptor)
    requires WellFormed(d) && Define(firstByte, secondByte, d).Ok?
    ensures var out := Define(firstByte, secondByte, d).value;
      && out.nibbleCount < NibbleBound(d)
      && EncodeHeader(d, out.nibbleCount) == [firstByte, secondByte][..out.resultingOffset]
  {
    PrefixValue(firstByte, d);
  }

  /** The cases of the branch-header tests: one-byte, two-byte, overlong and wrong-prefix headers. */
  lemma BranchHeaderCases()
    ensures Define(0x90, 0x00, BranchWithoutValue()) == Ok(HeaderOutput(16, 1))
    ensures Define(0xBF, 0x00, BranchWithoutValue()) == Ok(HeaderOutput(63, 2))
    ensures Define(0xBF, 0x80, BranchWithoutValue()) == Ok(HeaderOutput(63 + 128, 2))
    ensures Define(0xBF, 0xFF, BranchWithoutValue()) == Err(UnsupportedHeaderLength)
    ensures Define(0x03, 0x00, BranchWithoutValue()) == Err(PrefixMismatch)
  {
    var d := BranchWithoutValue();
    PrefixMatchesIff(0x90, d);
    PrefixMatchesIff(0xBF, d);
    PrefixMatchesIff(0x03, d);
  }

  /** The cases of the leaf-header tests. */
  lemma LeafHeaderCases()
    ensures Define(0x30, 0x00, HashedValueLeaf()) == Ok(HeaderOutput(16, 1))
    ensures Define(0x3F, 0x00, HashedValueLeaf()) == Ok(HeaderOutput(31, 2))
    ensures Define(0x3F, 0x80, HashedValueLeaf()) == Ok(HeaderOutput(31 + 128, 2))
    ensures Define(0x3F, 0xFF, HashedValueLeaf()) == Err(UnsupportedHeaderLength)
    ensures Define(0x83, 0x00, HashedValueLeaf()) == Err(PrefixMismatch)
  {
    var d := HashedValueLeaf();
    PrefixMatchesIff(0x30, d);
    PrefixMatchesIff(0x3F, d);
    PrefixMatchesIff(0x83, d);
  }
}
