/**
 * The digest reader of
 * prover/src/storage_inclusion/storage_trie_proof/node_parser/leaf_parser/hashed_data_parser.rs:
 * a `HashedValueLeaf` node stores the Blake2 hash of its value, 32 bytes
 * long, at the read offset. The parser reads those bytes, turns them into
 * the 256 bits of a `Blake2Target` and moves the offset past them.
 */
module HashedDataParser {
  import opened Bits
  import opened TargetBits
  import opened Wrappers

  /** `BLAKE2_DIGEST_SIZE`. */
  const Blake2DigestSize: nat := 32

  datatype HashedDataOutput = HashedDataOutput(resultingOffset: nat, dataHash: seq<bool>)

  /** `ByteTarget::as_bit_targets`: the 8 bits of a byte, least significant first. */
  function AsBitTargets(b: Byte): (r: seq<bool>)
    ensures |r| == 8
    ensures forall k :: 0 <= k < 8 ==> r[k] == Bit(b, k)
  {
    var r := LsbBits(b, 8);
    forall k | 0 <= k < 8
      ensures r[k] == Bit(b, k)
    {
      LsbBitsAt(b, 8, k);
    }
    r
  }

  /** The `flat_map` of the parser: each byte's `as_bit_targets`, reversed, in byte order. */
  function DigestBits(bytes: seq<Byte>): (r: seq<bool>)
    ensures |r| == 8 * |bytes|
  {
    if bytes == [] then [] else Reverse(AsBitTargets(bytes[0])) + DigestBits(bytes[1..])
  }

  /**
   * `define`: `random_read_array` of 32 bytes at `read_offset`, the per-byte
   * reversed bits parsed with `Blake2Target::parse_exact`, and the offset
   * advanced by 32. A read running past the node data has no witness (None).
   */
  function Define(nodeData: seq<Byte>, readOffset: nat): (r: Option<HashedDataOutput>)
    ensures r.Some? <==> readOffset + Blake2DigestSize <= |nodeData|
    ensures r.Some? ==> r.value.resultingOffset == readOffset + Blake2DigestSize
    ensures r.Some? ==> |r.value.dataHash| == 8 * Blake2DigestSize
  {
    if readOffset + Blake2DigestSize > |nodeData| then None
    else
      var hashData := nodeData[readOffset .. readOffset + Blake2DigestSize];
      var hashDataBits := DigestBits(hashData);
      match ParseExact(hashDataBits, 8 * Blake2DigestSize)
      case None => None
      case Some(dataHash) => Some(HashedDataOutput(readOffset + Blake2DigestSize, dataHash))
  }

  /** Reversing `as_bit_targets` gives `byte_to_bits`: every byte is read most significant bit first. */
  lemma {:induction false} DigestBitsIsArrayToBits(bytes: seq<Byte>)
    ensures DigestBits(bytes) == ArrayToBits(bytes)
  {
    if bytes != [] {
      ByteToBitsIsReversedLsb(bytes[0]);
      DigestBitsIsArrayToBits(bytes[1..]);
    }
  }

  /** The digest is `array_to_bits` of exactly the 32 bytes at the read offset. */
  lemma DefineReadsDigest(nodeData: seq<Byte>, readOffset: nat)
    requires readOffset + Blake2DigestSize <= |nodeData|
    ensures Define(nodeData, readOffset).Some?
    ensures Define(nodeData, readOffset).value.dataHash
         == ArrayToBits(nodeData[readOffset .. readOffset + Blake2DigestSize])
  {
    DigestBitsIsArrayToBits(nodeData[readOffset .. readOffset + Blake2DigestSize]);
  }

  /** Two nodes give the same digest target only when they hold the same 32 bytes at the offset. */
  lemma DefineDeterminesDigestBytes(a: seq<Byte>, b: seq<Byte>, readOffset: nat)
    requires Define(a, readOffset).Some? && Define(b, readOffset).Some?
    requires Define(a, readOffset).value.dataHash == Define(b, readOffset).value.dataHash
    ensures a[readOffset .. readOffset + Blake2DigestSize] == b[readOffset .. readOffset + Blake2DigestSize]
  {
    DefineReadsDigest(a, readOffset);
    DefineReadsDigest(b, readOffset);
    ArrayToBitsInjective(a[readOffset .. readOffset + Blake2DigestSize], b[readOffset .. readOffset + Blake2DigestSize]);
  }
}
