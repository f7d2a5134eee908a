/**
 * The single-target operations of prover/src/common/targets/target.rs,
 * interpreted over naturals: a target is a wire, a bool target a wire
 * carrying a bit.
 *
 * `Target::parse` / `into_targets_iter` read and write one wire;
 * `from_bool_targets_le` reorders the bits of every 8-bit chunk and sums
 * them little-endian; `from_u64_bits_le_lossy` is its 64-bit instance.
 * The Goldilocks field reduction that makes it "lossy" is not modelled.
 */
module TargetBits {
  import opened Arith
  import opened Bits
  import opened Wrappers

  // ----- TargetSet for Target -------------------------------------------

  /** `Target::parse`: takes the next wire; `unwrap` on an exhausted iterator panics (None). */
  function Parse<T>(raw: seq<T>): (r: Option<(T, seq<T>)>)
    ensures r.Some? <==> |raw| >= 1
    ensures r.Some? ==> [r.value.0] + r.value.1 == raw
  {
    if raw == [] then None else Some((raw[0], raw[1..]))
  }

  /** `Target::into_targets_iter`: `std::iter::once(self)`. */
  function IntoTargets<T>(t: T): (r: seq<T>)
    ensures |r| == 1 && r[0] == t
  {
    [t]
  }

  /** Parsing what `into_targets_iter` wrote gives the target back and leaves the rest untouched. */
  lemma ParseIntoTargets<T>(t: T, rest: seq<T>)
    ensures Parse(IntoTargets(t) + rest) == Some((t, rest))
  {
    assert (IntoTargets(t) + rest)[1..] == rest;
  }

  /** Parses n single targets one after another (the shape of an `ArrayTarget` of targets). */
  function ParseArray<T>(raw: seq<T>, n: nat): (r: Option<(seq<T>, seq<T>)>)
    ensures r.Some? <==> |raw| >= n
    ensures r.Some? ==> |r.value.0| == n && r.value.0 + r.value.1 == raw
    decreases n
  {
    if n == 0 then Some(([], raw))
    else
      match Parse(raw)
      case None => None
      case Some((t, rest)) =>
        match ParseArray(rest, n - 1)
        case None => None
        case Some((ts, tail)) => Some(([t] + ts, tail))
  }

  /** `parse_exact`: parses n targets and panics (None) when the iterator is not then empty. */
  function ParseExact<T>(raw: seq<T>, n: nat): (r: Option<seq<T>>)
    ensures r.Some? <==> |raw| == n
    ensures r.Some? ==> r.value == raw
  {
    match ParseArray(raw, n)
    case None => None
    case Some((ts, tail)) => if tail == [] then Some(ts) else None
  }

  // ----- from_bool_targets_le -------------------------------------------

  /** `chunks(8)`: consecutive chunks of 8, the last one possibly shorter. */
  function Chunks8<T>(s: seq<T>): (r: seq<seq<T>>)
    decreases |s|
  {
    if s == [] then []
    else if |s| <= 8 then [s]
    else [s[..8]] + Chunks8(s[8..])
  }

  function Flatten<T>(ss: seq<seq<T>>): seq<T> {
    if ss == [] then [] else ss[0] + Flatten(ss[1..])
  }

  /** `chunks(8).rev().flatten().rev()`, written as the iterator chain does it. */
  function Reorder<T>(bits: seq<T>): seq<T> {
    Reverse(Flatten(Reverse(Chunks8(bits))))
  }

  /** Reverses the bits of every chunk of 8 and keeps the chunks in place. */
  function ReverseEachChunk<T>(s: seq<T>): (r: seq<T>)
    ensures |r| == |s|
    decreases |s|
  {
    if |s| <= 8 then Reverse(s) else Reverse(s[..8]) + ReverseEachChunk(s[8..])
  }

  lemma {:induction false} FlattenAppend<T>(a: seq<seq<T>>, b: seq<seq<T>>)
    ensures Flatten(a + b) == Flatten(a) + Flatten(b)
  {
    if a == [] {
      assert a + b == b;
    } else {
      assert (a + b)[1..] == a[1..] + b;
      FlattenAppend(a[1..], b);
    }
  }

  /** Reversing a flattened reversal reverses each part in place. */
  lemma {:induction false} ReverseFlattenReverse<T>(cs: seq<seq<T>>, s: seq<T>)
    requires Flatten(cs) == s
    requires cs == Chunks8(s)
    ensures Reverse(Flatten(Reverse(cs))) == ReverseEachChunk(s)
    decreases |s|
  {
    if s == [] {
    } else if |s| <= 8 {
      assert Reverse(cs) == [s];
      assert Flatten([s]) == s + Flatten([]);
    } else {
      var c0, tail := s[..8], Chunks8(s[8..]);
      assert cs == [c0] + tail;
      assert Flatten(cs) == c0 + Flatten(tail);
      assert Flatten(tail) == s[8..];
      ReverseFlattenReverse(tail, s[8..]);
      ReverseAppend([c0], tail);
      assert Reverse([c0]) == [c0];
      assert Reverse(cs) == Reverse(tail) + [c0];
      FlattenAppend(Reverse(tail), [c0]);
      assert Flatten([c0]) == c0 + Flatten([]);
      var f := Flatten(Reverse(tail));
      assert Flatten(Reverse(cs)) == f + c0;
      ReverseAppend(f, c0);
      assert Reverse(f + c0) == Reverse(c0) + ReverseEachChunk(s[8..]);
    }
  }

  lemma {:induction false} FlattenChunks8<T>(s: seq<T>)
    ensures Flatten(Chunks8(s)) == s
    decreases |s|
  {
    if s == [] {
    } else if |s| <= 8 {
      assert Flatten([s]) == s + Flatten([]);
    } else {
      FlattenChunks8(s[8..]);
      assert Chunks8(s) == [s[..8]] + Chunks8(s[8..]);
      assert s == s[..8] + s[8..];
    }
  }

  /**
   * The reordering keeps the chunks in place and reverses the bits inside
   * each one. This holds for every bit count, including a short last chunk;
   * only for B % 8 == 0 does it turn most-significant-first bytes into one
   * little-endian word (the TODO beside `from_bool_targets_le`).
   */
  lemma ReorderIsChunkwiseReverse<T>(bits: seq<T>)
    ensures Reorder(bits) == ReverseEachChunk(bits)
  {
    FlattenChunks8(bits);
    ReverseFlattenReverse(Chunks8(bits), bits);
  }

  /**
   * `from_bool_targets_le::<B>`: asserts B <= 64, reorders; for B == 64 pops
   * the most significant bit and adds it back as `2^63 * msb` with `mul_add`,
   * otherwise `le_sum`s everything.
   */
  function FromBoolTargetsLe(bits: seq<bool>): (r: nat)
    requires |bits| <= 64
    ensures r == LeSum(Reorder(bits))
    ensures r < Pow2(|bits|)
  {
    var reordered := Reorder(bits);
    ReorderIsChunkwiseReverse(bits);
    LeSumBound(reordered);
    if |bits| == 64 then
      var msb := reordered[63];
      var partialSum := LeSum(reordered[..63]);
      MsbSplit(reordered);
      Pow2(63) * BoolValue(msb) + partialSum
    else
      LeSum(reordered)
  }

  /** Splitting off the most significant of 64 bits and adding it back as `2^63 * msb` keeps the sum. */
  lemma MsbSplit(bits: seq<bool>)
    requires |bits| == 64
    ensures Pow2(63) * BoolValue(bits[63]) + LeSum(bits[..63]) == LeSum(bits)
  {
    LeSumAppend(bits[..63], [bits[63]]);
    assert bits[..63] + [bits[63]] == bits;
    assert LeSum([bits[63]]) == BoolValue(bits[63]);
  }

  /** `from_u64_bits_le_lossy`: `from_bool_targets_le` at B = 64. */
  function FromU64BitsLeLossy(bits: seq<bool>): (r: nat)
    requires |bits| == 64
    ensures r == LeSum(Reorder(bits)) && r < Pow2(64)
  {
    FromBoolTargetsLe(bits)
  }

  // ----- the round trip checked by the test at target.rs:51-94 ----------

  /** `u64::to_le_bytes` (for any width): the k lowest base-256 digits, lowest first. */
  function ToLeBytes(n: nat, k: nat): (r: seq<Byte>)
    ensures |r| == k
  {
    if k == 0 then [] else [n % 256] + ToLeBytes(n / 256, k - 1)
  }

  /** The value of little-endian bytes. */
  function LeBytesValue(bytes: seq<Byte>): nat {
    if bytes == [] then 0 else bytes[0] + 256 * LeBytesValue(bytes[1..])
  }

  /** k little-endian bytes and what is left after 8k halvings make up n. */
  lemma {:induction false} LeBytesSplit(n: nat, k: nat)
    ensures LeBytesValue(ToLeBytes(n, k)) + Pow2(8 * k) * Shr(n, 8 * k) == n
  {
    if k > 0 {
      LeBytesSplit(n / 256, k - 1);
      ShrByte(n);
      ShrShr(n, 8, 8 * (k - 1));
      var p, q := Pow2(8 * (k - 1)), Shr(n, 8 * k);
      Pow2Add(8, 8 * (k - 1));
      Pow2Byte();
      assert Pow2(8 * k) == 256 * p;
      MulAssoc(256, p, q);
    }
  }

  /** Bytes whose bits are each listed lowest first. */
  function LsbFirstBytes(bytes: seq<Byte>): (r: seq<bool>)
    ensures |r| == 8 * |bytes|
  {
    if bytes == [] then [] else LsbBits(bytes[0], 8) + LsbFirstBytes(bytes[1..])
  }

  lemma {:induction false} ReorderOfArrayToBits(bytes: seq<Byte>)
    ensures ReverseEachChunk(ArrayToBits(bytes)) == LsbFirstBytes(bytes)
  {
    if bytes != [] {
      var head := ByteToBits(bytes[0]);
      var rest := ArrayToBits(bytes[1..]);
      assert ArrayToBits(bytes) == head + rest;
      ByteToBitsIsReversedLsb(bytes[0]);
      ReverseReverse(LsbBits(bytes[0], 8));
      ReorderOfArrayToBits(bytes[1..]);
      if |bytes| == 1 {
        assert rest == [];
        assert head + rest == head;
      } else {
        assert (head + rest)[..8] == head;
        assert (head + rest)[8..] == rest;
      }
    }
  }

  lemma {:induction false} LeSumOfLsbFirstBytes(bytes: seq<Byte>)
    ensures LeSum(LsbFirstBytes(bytes)) == LeBytesValue(bytes)
  {
    if bytes != [] {
      LeSumOfLsbFirstBytes(bytes[1..]);
      LeSumAppend(LsbBits(bytes[0], 8), LsbFirstBytes(bytes[1..]));
      Pow2Byte();
      LeSumOfLsbBits(bytes[0], 8);
    }
  }

  /** k little-endian bytes of a number below 2^(8k), expanded and reordered, sum back to the number. */
  lemma LeBytesRoundTrip(num: nat, k: nat)
    requires num < Pow2(8 * k)
    ensures LeSum(Reorder(ArrayToBits(ToLeBytes(num, k)))) == num
  {
    BytesBitsValue(ToLeBytes(num, k));
    LeBytesFit(num, k);
  }

  /** A number below 2^(8k) is exactly the value of its k little-endian bytes. */
  lemma LeBytesFit(num: nat, k: nat)
    requires num < Pow2(8 * k)
    ensures LeBytesValue(ToLeBytes(num, k)) == num
  {
    LeBytesSplit(num, k);
    ShrSmall(num, 8 * k);
  }

  /** Expanding bytes with `array_to_bits` and reordering gives bits whose `le_sum` is the bytes' little-endian value. */
  lemma BytesBitsValue(bytes: seq<Byte>)
    ensures LeSum(Reorder(ArrayToBits(bytes))) == LeBytesValue(bytes)
  {
    ReorderIsChunkwiseReverse(ArrayToBits(bytes));
    ReorderOfArrayToBits(bytes);
    LeSumOfLsbFirstBytes(bytes);
  }

  /**
   * A u64 written with `to_le_bytes`, expanded with `array_to_bits` and fed
   * to `from_u64_bits_le_lossy` comes back unchanged (over the naturals).
   */
  lemma FromU64BitsRoundTrip(num: nat)
    requires num < Pow2(64)
    ensures FromU64BitsLeLossy(ArrayToBits(ToLeBytes(num, 8))) == num
  {
    LeBytesRoundTrip(num, 8);
  }
}
