/** Files as byte sequences. Reading `n` bytes at position `pos` gives the
    bytes that exist there: fewer near the end of the file, none past it. */
module Files {
  import opened Bytes

  function Min(a: int, b: int): int
  {
    if a <= b then a else b
  }

  /** CPython's file objects convert a `seek` position to a C `off_t` and a
      `read` size to a `Py_ssize_t`, both 64-bit signed on the platforms the
      programs target; a position or size at or above `2^63` raises instead
      of being used. */
  const OFF_T_BOUND: nat := 0x8000_0000_0000_0000

  /** `f.seek(pos)` succeeds: a negative position makes `lseek` fail with
      `EINVAL` (`OSError`), and one that does not fit an `off_t` raises
      `ValueError`. */
  predicate SeekAccepts(pos: int)
  {
    0 <= pos < OFF_T_BOUND
  }

  /** `f.read(n)` on a buffered binary file: `-1` reads to the end, a size
      below `-1` raises `ValueError`, and one that does not fit a
      `Py_ssize_t` raises as well. */
  predicate ReadAccepts(n: int)
  {
    -1 <= n < OFF_T_BOUND
  }

  /** `f.seek(pos); f.read(n)` for `n >= 0`. */
  function ReadAt(file: seq<byte>, pos: nat, n: nat): (r: seq<byte>)
    ensures |r| == Min(n, if pos < |file| then |file| - pos else 0)
    ensures forall k :: 0 <= k < |r| ==> r[k] == file[pos + k]
  {
    var lo := Min(pos, |file|);
    var hi := Min(pos + n, |file|);
    file[lo..hi]
  }

  /** Two adjacent reads return what one longer read returns. */
  lemma ReadAtSplit(file: seq<byte>, pos: nat, a: nat, b: nat)
    ensures ReadAt(file, pos, a) + ReadAt(file, pos + a, b) == ReadAt(file, pos, a + b)
  {
    var x, y, z := ReadAt(file, pos, a), ReadAt(file, pos + a, b), ReadAt(file, pos, a + b);
    assert |x + y| == |z|;
    forall k | 0 <= k < |z| ensures (x + y)[k] == z[k] {
      if k >= |x| {
        assert |x| == a;
        assert (x + y)[k] == y[k - a];
      }
    }
  }

  /** A whole file read from the start. */
  lemma ReadAtWhole(file: seq<byte>)
    ensures ReadAt(file, 0, |file|) == file
  {
  }
}
