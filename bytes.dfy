/** Bytes and the unsigned big-endian integer fields that Python's `struct`
    module produces for the network-order formats `'!I'` (4 bytes) and `'!Q'`
    (8 bytes). `struct.pack` raises for a value outside the field's range;
    callers model that with `Fits`. */
module Bytes {
  newtype byte = x: int | 0 <= x < 256

  /** 256 to the power `n`: the number of values an `n`-byte field can hold. */
  function Pow256(n: nat): (r: nat)
    ensures r >= 1
  {
    if n == 0 then 1 else 256 * Pow256(n - 1)
  }

  const U32_BOUND: nat := 0x1_0000_0000
  const U64_BOUND: nat := 0x1_0000_0000_0000_0000

  lemma FieldBounds()
    ensures Pow256(4) == U32_BOUND && Pow256(8) == U64_BOUND
  {
  }

  /** The value fits an unsigned field of `width` bytes, so `struct.pack` accepts it. */
  predicate Fits(n: int, width: nat)
  {
    0 <= n < Pow256(width)
  }

  /** The `width`-byte big-endian encoding of `n`, most significant byte first. */
  function BigEndian(n: nat, width: nat): (r: seq<byte>)
    ensures |r| == width
  {
    if width == 0 then [] else BigEndian(n / 256, width - 1) + [(n % 256) as byte]
  }

  /** The unsigned integer that a big-endian byte string denotes (`struct.unpack`). */
  function Value(s: seq<byte>): (r: nat)
    ensures r < Pow256(|s|)
  {
    if s == [] then 0
    else
      var high := Value(s[..|s| - 1]);
      assert high <= Pow256(|s| - 1) - 1;
      assert high * 256 <= Pow256(|s|) - 256;
      high * 256 + s[|s| - 1] as nat
  }

  /** Decoding an encoded value gives it back, for every value the field can hold. */
  lemma {:induction false} ValueOfBigEndian(n: nat, width: nat)
    requires n < Pow256(width)
    ensures Value(BigEndian(n, width)) == n
  {
    if width > 0 {
      var s := BigEndian(n, width);
      var high := n / 256;
      assert s[..width - 1] == BigEndian(high, width - 1) && s[width - 1] as nat == n % 256;
      HighBytesFit(n, Pow256(width - 1));
      ValueOfBigEndian(high, width - 1);
      assert Value(s) == high * 256 + n % 256;
    }
  }

  lemma HighBytesFit(n: nat, bound: nat)
    requires n < 256 * bound
    ensures n / 256 < bound && n == (n / 256) * 256 + n % 256
  {
  }

  /** Encoding a decoded field gives the same bytes back. */
  lemma {:induction false} BigEndianOfValue(s: seq<byte>)
    ensures BigEndian(Value(s), |s|) == s
  {
    if s != [] {
      var p := s[..|s| - 1];
      var v := Value(s);
      assert v / 256 == Value(p);
      assert (v % 256) as byte == s[|s| - 1];
      BigEndianOfValue(p);
      assert s == p + [s[|s| - 1]];
    }
  }

  /** Two values of the same width have the same encoding only if they are equal. */
  lemma BigEndianInjective(m: nat, n: nat, width: nat)
    requires m < Pow256(width) && n < Pow256(width)
    requires BigEndian(m, width) == BigEndian(n, width)
    ensures m == n
  {
    ValueOfBigEndian(m, width);
    ValueOfBigEndian(n, width);
  }
}
