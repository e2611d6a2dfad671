/** `download_file` of both clients: a file of `fileSize` bytes is fetched as
    `NUM_PARTS` contiguous segments, `q = fileSize // NUM_PARTS` bytes each
    except the last, which also takes the remainder. Python's `//` and
    Dafny's `/` agree because the divisor is positive. */
module Partition {
  import opened Bytes
  import opened Seqs
  import opened Files

  const NUM_PARTS: nat := 4

  /** `chunk_size = file_size // num_parts` */
  function Quota(fileSize: int): int
  {
    fileSize / NUM_PARTS
  }

  /** `offset = part * chunk_size` (parts counted from 0). */
  function PartOffset(fileSize: int, part: nat): int
  {
    part * Quota(fileSize)
  }

  /** `size = chunk_size if part < num_parts - 1 else file_size - (num_parts - 1) * chunk_size` */
  function PartSize(fileSize: int, part: nat): int
  {
    if part < NUM_PARTS - 1 then Quota(fileSize) else fileSize - (NUM_PARTS - 1) * Quota(fileSize)
  }

  /** The `(offset, size)` pairs handed to the download threads, in order. */
  function Segments(fileSize: int): (segs: seq<(int, int)>)
    ensures |segs| == NUM_PARTS
    ensures forall k :: 0 <= k < NUM_PARTS ==> segs[k] == (PartOffset(fileSize, k), PartSize(fileSize, k))
  {
    seq(NUM_PARTS, k requires 0 <= k < NUM_PARTS => (PartOffset(fileSize, k), PartSize(fileSize, k)))
  }

  /** The segments start at 0, each starts where the previous one ends, and
      the last ends at `fileSize`: they tile the file without gap or overlap. */
  lemma SegmentsTile(fileSize: int)
    ensures Segments(fileSize)[0].0 == 0
    ensures forall k :: 0 <= k < NUM_PARTS - 1 ==>
              Segments(fileSize)[k + 1].0 == Segments(fileSize)[k].0 + Segments(fileSize)[k].1
    ensures Segments(fileSize)[NUM_PARTS - 1].0 + Segments(fileSize)[NUM_PARTS - 1].1 == fileSize
  {
  }

  /** The sizes add up to the file size, for every integer size. */
  lemma SizesSum(fileSize: int)
    ensures PartSize(fileSize, 0) + PartSize(fileSize, 1) + PartSize(fileSize, 2) + PartSize(fileSize, 3) == fileSize
  {
  }

  /** The last segment is larger than every other one by the remainder of
      the division, between 0 and 3 bytes; for a file of non-negative size
      no size is negative. */
  lemma LastTakesRemainder(fileSize: int, k: nat)
    requires k < NUM_PARTS
    ensures PartSize(fileSize, NUM_PARTS - 1) - PartSize(fileSize, k) == if k == NUM_PARTS - 1 then 0 else fileSize % NUM_PARTS
    ensures 0 <= PartSize(fileSize, NUM_PARTS - 1) - PartSize(fileSize, k) <= NUM_PARTS - 1
    ensures fileSize >= 0 ==> PartSize(fileSize, k) >= 0
  {
  }

  /** The bytes read for each segment, put back together in part order,
      give back the whole file. */
  lemma SegmentsReassemble(file: seq<byte>)
    ensures var n := |file|;
            ReadAt(file, PartOffset(n, 0), PartSize(n, 0)) + ReadAt(file, PartOffset(n, 1), PartSize(n, 1))
            + ReadAt(file, PartOffset(n, 2), PartSize(n, 2)) + ReadAt(file, PartOffset(n, 3), PartSize(n, 3))
            == file
  {
    var n := |file|;
    var q := Quota(n);
    SegmentBounds(n);
    var a, b, c := ReadAt(file, 0, q), ReadAt(file, q, q), ReadAt(file, q + q, q);
    var d := ReadAt(file, q + q + q, n - (q + q + q));
    ReadAtSplit(file, 0, q, q);
    ReadAtSplit(file, 0, q + q, q);
    ReadAtSplit(file, 0, q + q + q, n - (q + q + q));
    ReadAtWhole(file);
    assert a + b + c + d == file;
  }

  /** The four segments of a file in terms of the quota alone. */
  lemma SegmentBounds(n: nat)
    ensures var q := Quota(n);
            && 0 <= q && q + q + q <= n
            && PartOffset(n, 0) == 0 && PartOffset(n, 1) == q && PartOffset(n, 2) == q + q && PartOffset(n, 3) == q + q + q
            && PartSize(n, 0) == q && PartSize(n, 1) == q && PartSize(n, 2) == q && PartSize(n, 3) == n - (q + q + q)
  {
  }
}
