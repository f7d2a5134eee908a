/**
 * Byte/bit conversions of the prover's common helpers (prover/src/common/mod.rs):
 * `array_to_bits`, `byte_to_bits`, `bits_to_byte`, `pad_byte_vec`, and the
 * boolean meaning of the gate sequence in `xor_targets`.
 *
 * Bits are `bool`s. `byte_to_bits` is most-significant-bit first, while the
 * little-endian helpers `LsbBits` and `LeSum` (the meaning of plonky2's
 * `le_sum`) are least-significant-bit first.
 */
module Bits {
  import opened Arith

  type Byte = b: nat | b < 256

  /** `n >> i`: i halvings. */
  function Shr(n: nat, i: nat): nat {
    if i == 0 then n else Shr(n / 2, i - 1)
  }

  /** Bit i of n, counting from the least significant one: `(n >> i) % 2 == 1`. */
  function Bit(n: nat, i: nat): bool {
    Shr(n, i) % 2 == 1
  }

  lemma {:induction false} ShrShr(n: nat, a: nat, b: nat)
    ensures Shr(Shr(n, a), b) == Shr(n, a + b)
  {
    if a > 0 {
      ShrShr(n / 2, a - 1, b);
    }
  }

  /** Shifting by 8 divides by 256. */
  lemma ShrByte(n: nat)
    ensures Shr(n, 8) == n / 256
  {
    assert n / 2 / 2 == n / 4;
    assert n / 4 / 2 == n / 8;
    assert n / 8 / 2 == n / 16;
    assert n / 16 / 2 == n / 32;
    assert n / 32 / 2 == n / 64;
    assert n / 64 / 2 == n / 128;
    assert n / 128 / 2 == n / 256;
    assert Shr(n, 8) == Shr(n / 2, 7) == Shr(n / 4, 6) == Shr(n / 8, 5) == Shr(n / 16, 4);
    assert Shr(n / 16, 4) == Shr(n / 32, 3) == Shr(n / 64, 2) == Shr(n / 128, 1) == n / 256;
  }

  /** A number below 2^w has nothing left after w halvings. */
  lemma {:induction false} ShrSmall(n: nat, w: nat)
    requires n < Pow2(w)
    ensures Shr(n, w) == 0
  {
    if w > 0 {
      ShrSmall(n / 2, w - 1);
    }
  }

  function BoolValue(b: bool): nat {
    if b then 1 else 0
  }

  /**
   * `xor_targets` builds `!(!a & !b) & !(a & b)` out of NOT and AND gates;
   * the wire it returns carries the exclusive or of its inputs.
   */
  function XorTargets(a: bool, b: bool): (r: bool)
    ensures r <==> (a != b)
  {
    var notA := !a;
    var notB := !b;
    var c := !(notA && notB);
    var d := !(a && b);
    c && d
  }

  function Reverse<T>(s: seq<T>): (r: seq<T>)
    ensures |r| == |s|
  {
    if s == [] then [] else Reverse(s[1..]) + [s[0]]
  }

  lemma {:induction false} ReverseAt<T>(s: seq<T>, k: nat)
    requires k < |s|
    ensures Reverse(s)[k] == s[|s| - 1 - k]
  {
    if k < |s| - 1 {
      ReverseAt(s[1..], k);
    }
  }

  lemma ReverseReverse<T>(s: seq<T>)
    ensures Reverse(Reverse(s)) == s
  {
    forall k | 0 <= k < |s|
      ensures Reverse(Reverse(s))[k] == s[k]
    {
      ReverseAt(Reverse(s), k);
      ReverseAt(s, |s| - 1 - k);
    }
  }

  lemma {:induction false} ReverseAppend<T>(a: seq<T>, b: seq<T>)
    ensures Reverse(a + b) == Reverse(b) + Reverse(a)
  {
    if a == [] {
      assert a + b == b;
    } else {
      assert (a + b)[1..] == a[1..] + b;
      ReverseAppend(a[1..], b);
    }
  }

  /** plonky2's `le_sum`: the number whose binary digits, lowest first, are `bits`. */
  function LeSum(bits: seq<bool>): nat {
    if bits == [] then 0 else BoolValue(bits[0]) + 2 * LeSum(bits[1..])
  }

  lemma {:induction false} LeSumBound(bits: seq<bool>)
    ensures LeSum(bits) < Pow2(|bits|)
  {
    if bits != [] {
      LeSumBound(bits[1..]);
    }
  }

  /** Appending `hi` after `lo` adds `hi`'s value shifted past `lo`'s width. */
  lemma {:induction false} LeSumAppend(lo: seq<bool>, hi: seq<bool>)
    ensures LeSum(lo + hi) == LeSum(lo) + Pow2(|lo|) * LeSum(hi)
  {
    if lo == [] {
      assert lo + hi == hi;
    } else {
      var all := lo + hi;
      assert all[0] == lo[0] && all[1..] == lo[1..] + hi;
      LeSumAppend(lo[1..], hi);
      var p, h, t := Pow2(|lo| - 1), LeSum(hi), LeSum(lo[1..]);
      assert LeSum(all) == BoolValue(lo[0]) + 2 * (t + p * h);
      assert LeSum(lo) == BoolValue(lo[0]) + 2 * t;
      assert Pow2(|lo|) == 2 * p;
      MulAssoc(2, p, h);
    }
  }

  /** The lowest w bits of n, lowest first. */
  function LsbBits(n: nat, w: nat): (r: seq<bool>)
    ensures |r| == w
  {
    if w == 0 then [] else [n % 2 == 1] + LsbBits(n / 2, w - 1)
  }

  lemma {:induction false} LsbBitsAt(n: nat, w: nat, j: nat)
    requires j < w
    ensures LsbBits(n, w)[j] == Bit(n, j)
  {
    if j > 0 {
      LsbBitsAt(n / 2, w - 1, j - 1);
    }
  }

  /** The lowest w bits of n and what is left after w halvings make up n. */
  lemma {:induction false} LsbBitsSplit(n: nat, w: nat)
    ensures LeSum(LsbBits(n, w)) + Pow2(w) * Shr(n, w) == n
  {
    if w > 0 {
      LsbBitsSplit(n / 2, w - 1);
      var p, q := Pow2(w - 1), Shr(n / 2, w - 1);
      assert LsbBits(n, w)[1..] == LsbBits(n / 2, w - 1);
      MulAssoc(2, p, q);
    }
  }

  /** Reading back the lowest w bits of a number below 2^w gives the number. */
  lemma LeSumOfLsbBits(n: nat, w: nat)
    requires n < Pow2(w)
    ensures LeSum(LsbBits(n, w)) == n
  {
    LsbBitsSplit(n, w);
    ShrSmall(n, w);
  }

  /** The low s bits of x as a number: `x % 2^s`. */
  function Low(x: nat, s: nat): (r: nat)
    ensures r < Pow2(s)
    ensures r + Pow2(s) * Shr(x, s) == x
  {
    LeSumBound(LsbBits(x, s));
    LsbBitsSplit(x, s);
    LeSum(LsbBits(x, s))
  }

  /** Bit i of a little-endian sum is the i-th listed bit. */
  lemma BitOfLeSum(bits: seq<bool>, i: nat)
    requires i < |bits|
    ensures Bit(LeSum(bits), i) == bits[i]
  {
    LsbBitsOfLeSum(bits);
    LsbBitsAt(LeSum(bits), |bits|, i);
  }

  /** The low s bits of x keep x's bits below s. */
  lemma BitOfLow(x: nat, s: nat, i: nat)
    requires i < s
    ensures Bit(Low(x, s), i) == Bit(x, i)
  {
    BitOfLeSum(LsbBits(x, s), i);
    LsbBitsAt(x, s, i);
  }

  /** Taking the bits of a little-endian sum gives the bits back. */
  lemma {:induction false} LsbBitsOfLeSum(bits: seq<bool>)
    ensures LsbBits(LeSum(bits), |bits|) == bits
  {
    if bits != [] {
      var n := LeSum(bits);
      assert n == BoolValue(bits[0]) + 2 * LeSum(bits[1..]);
      assert n % 2 == BoolValue(bits[0]) && n / 2 == LeSum(bits[1..]);
      LsbBitsOfLeSum(bits[1..]);
    }
  }

  lemma Pow2Byte()
    ensures Pow2(8) == 256
  {
  }

  /** `byte_to_bits`: the 8 bits of a byte, most significant first (`(0..8).rev()`). */
  function ByteToBits(b: Byte): (r: seq<bool>)
    ensures |r| == 8
  {
    seq(8, k requires 0 <= k < 8 => Bit(b, 7 - k))
  }

  /** `bits_to_byte`: the k-th bit of the reversed sequence is shifted left by k and summed. */
  function BitsToByte(bits: seq<bool>): (r: Byte)
    requires |bits| == 8
  {
    LeSumBound(Reverse(bits));
    LeSum(Reverse(bits))
  }

  /** `byte_to_bits` lists the low 8 bits in the opposite order to `LsbBits`. */
  lemma ByteToBitsIsReversedLsb(b: Byte)
    ensures ByteToBits(b) == Reverse(LsbBits(b, 8))
  {
    forall k | 0 <= k < 8
      ensures ByteToBits(b)[k] == Reverse(LsbBits(b, 8))[k]
    {
      ReverseAt(LsbBits(b, 8), k);
      LsbBitsAt(b, 8, 7 - k);
    }
  }

  lemma BitsToByteOfByteToBits(b: Byte)
    ensures BitsToByte(ByteToBits(b)) == b
  {
    ByteToBitsIsReversedLsb(b);
    ReverseReverse(LsbBits(b, 8));
    Pow2Byte();
    LeSumOfLsbBits(b, 8);
  }

  lemma ByteToBitsOfBitsToByte(bits: seq<bool>)
    requires |bits| == 8
    ensures ByteToBits(BitsToByte(bits)) == bits
  {
    var b := BitsToByte(bits);
    ByteToBitsIsReversedLsb(b);
    LsbBitsOfLeSum(Reverse(bits));
    ReverseReverse(bits);
  }

  /** `array_to_bits`: every byte's `byte_to_bits`, in byte order. */
  function ArrayToBits(data: seq<Byte>): (r: seq<bool>)
    ensures |r| == 8 * |data|
  {
    if data == [] then [] else ByteToBits(data[0]) + ArrayToBits(data[1..])
  }

  lemma {:induction false} ArrayToBitsAppend(a: seq<Byte>, b: seq<Byte>)
    ensures ArrayToBits(a + b) == ArrayToBits(a) + ArrayToBits(b)
  {
    if a == [] {
      assert a + b == b;
    } else {
      assert (a + b)[1..] == a[1..] + b;
      ArrayToBitsAppend(a[1..], b);
    }
  }

  /** Bits [8i, 8i+8) of `array_to_bits(data)` are the bits of byte i. */
  lemma {:induction false} ArrayToBitsChunk(data: seq<Byte>, i: nat)
    requires i < |data|
    ensures ArrayToBits(data)[8 * i .. 8 * i + 8] == ByteToBits(data[i])
  {
    if i > 0 {
      ArrayToBitsChunk(data[1..], i - 1);
      var rest := ArrayToBits(data[1..]);
      assert ArrayToBits(data)[8 * i .. 8 * i + 8] == rest[8 * (i - 1) .. 8 * (i - 1) + 8];
    }
  }

  /** Every byte can be read back out of `array_to_bits`, so it loses nothing. */
  lemma ArrayToBitsInjective(a: seq<Byte>, b: seq<Byte>)
    requires ArrayToBits(a) == ArrayToBits(b)
    ensures a == b
  {
    assert |a| == |b|;
    forall i | 0 <= i < |a|
      ensures a[i] == b[i]
    {
      ArrayToBitsChunk(a, i);
      ArrayToBitsChunk(b, i);
      BitsToByteOfByteToBits(a[i]);
      BitsToByteOfByteToBits(b[i]);
    }
  }

  /**
   * `pad_byte_vec::<L>`: asserts that the data fits, then fills up to L
   * bytes with zeros.
   */
  function PadByteVec(data: seq<Byte>, len: nat): (r: seq<Byte>)
    requires |data| <= len
    ensures |r| == len
    ensures r[..|data|] == data
    ensures forall i :: |data| <= i < len ==> r[i] == 0
  {
    data + seq(len - |data|, _ => 0)
  }
}
