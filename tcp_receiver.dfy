/** `download_chunk` of the TCP client: one `DOWNLOAD` request, then a loop
    that appends every `recv(1024)` to the part file until the part holds
    `chunk_size` bytes or the server closes the stream (an empty `recv`).
    The stream is the sequence of chunks `recv` returns. */
module TcpReceiver {
  import opened Bytes
  import opened Seqs
  import opened Commands
  import opened Progress

  datatype Ending =
    | Filled      // `received_size >= chunk_size`
    | PeerClosed  // `recv` returned no data
    | Waiting     // the chunks ran out while the loop was still running

  /** The part file, the number of `recv` calls the loop made, and why it stopped. */
  datatype Download = Download(part: seq<byte>, calls: nat, ending: Ending)

  /** The loop from a part file holding `soFar`, over the chunks still to
      arrive. */
  function Accumulate(chunkSize: int, soFar: seq<byte>, chunks: seq<seq<byte>>): (d: Download)
    ensures d.calls <= |chunks|
    ensures d.ending == Filled ==> |d.part| >= chunkSize
    ensures d.ending == PeerClosed ==> 0 < d.calls && chunks[d.calls - 1] == []
    ensures d.ending == Waiting ==> d.calls == |chunks| && |d.part| < chunkSize
    decreases |chunks|
  {
    if |soFar| >= chunkSize then Download(soFar, 0, Filled)
    else if chunks == [] then Download(soFar, 0, Waiting)
    else if chunks[0] == [] then Download(soFar, 1, PeerClosed)
    else
      var rest := Accumulate(chunkSize, soFar + chunks[0], chunks[1..]);
      rest.(calls := rest.calls + 1)
  }

  lemma FlattenFirst(chunks: seq<seq<byte>>, k: nat)
    requires 0 < k <= |chunks|
    ensures Flatten(chunks[..k]) == chunks[0] + Flatten(chunks[1..][..k - 1])
  {
    assert chunks[..k] == [chunks[0]] + chunks[1..][..k - 1];
    FlattenAppend([chunks[0]], chunks[1..][..k - 1]);
    assert [chunks[0]][..0] == [];
  }

  /** The part file is what it held before, followed by every chunk the loop
      read, in order (the empty chunk that ends the stream adds nothing). */
  lemma {:induction false} AccumulateAppendsChunks(chunkSize: int, soFar: seq<byte>, chunks: seq<seq<byte>>)
    ensures var d := Accumulate(chunkSize, soFar, chunks);
            d.part == soFar + Flatten(chunks[..d.calls])
    decreases |chunks|
  {
    var d := Accumulate(chunkSize, soFar, chunks);
    if |soFar| >= chunkSize || chunks == [] {
      assert chunks[..0] == [];
    } else if chunks[0] == [] {
      FlattenFirst(chunks, 1);
      assert chunks[1..][..0] == [];
    } else {
      AccumulateAppendsChunks(chunkSize, soFar + chunks[0], chunks[1..]);
      FlattenFirst(chunks, d.calls);
    }
  }

  /** Before every `recv` the loop makes, the part still held fewer than
      `chunk_size` bytes and no earlier `recv` had returned empty data: it
      never calls once either stop condition holds. */
  lemma {:induction false} NeverReadsAfterStop(chunkSize: int, soFar: seq<byte>, chunks: seq<seq<byte>>, j: nat)
    requires j < Accumulate(chunkSize, soFar, chunks).calls
    ensures |soFar| + TotalLength(chunks[..j]) < chunkSize
    ensures forall m :: 0 <= m < j ==> chunks[m] != []
    decreases |chunks|
  {
    if j == 0 {
      assert chunks[..0] == [];
    } else {
      var rest := chunks[1..];
      NeverReadsAfterStop(chunkSize, soFar + chunks[0], rest, j - 1);
      FlattenFirst(chunks, j);
      FlattenLength(chunks[..j]);
      FlattenLength(rest[..j - 1]);
      forall m | 0 <= m < j ensures chunks[m] != [] {
        if m > 0 { assert chunks[m] == rest[m - 1]; }
      }
    }
  }

  /** And the loop does stop there: once the part is full, or right after an
      empty `recv`. */
  lemma AccumulateStops(chunkSize: int, soFar: seq<byte>, chunks: seq<seq<byte>>)
    ensures |soFar| >= chunkSize ==> Accumulate(chunkSize, soFar, chunks) == Download(soFar, 0, Filled)
    ensures |soFar| < chunkSize && chunks != [] && chunks[0] == [] ==>
              Accumulate(chunkSize, soFar, chunks) == Download(soFar, 1, PeerClosed)
  {
  }

  /** When the server sends the whole range in non-empty pieces, the part
      file is exactly that range and the loop ends full. */
  lemma {:induction false} WholeRangeFills(chunkSize: int, soFar: seq<byte>, chunks: seq<seq<byte>>)
    requires forall m :: 0 <= m < |chunks| ==> chunks[m] != []
    requires |soFar| < chunkSize == |soFar| + TotalLength(chunks)
    ensures Accumulate(chunkSize, soFar, chunks) == Download(soFar + Flatten(chunks), |chunks|, Filled)
    decreases |chunks|
  {
    FlattenFirst(chunks, |chunks|);
    assert chunks[..|chunks|] == chunks && chunks[1..][..|chunks| - 1] == chunks[1..];
    FlattenLength(chunks);
    FlattenLength(chunks[1..]);
    var rest := chunks[1..];
    if rest == [] {
      assert Flatten(rest) == [];
    } else {
      forall m | 0 <= m < |rest| ensures rest[m] != [] {
        assert rest[m] == chunks[m + 1];
      }
      WholeRangeFills(chunkSize, soFar + chunks[0], rest);
    }
  }

  /** The receive loop, writing this part's progress slot after each chunk.
      `request` is the command sent before the loop. */
  method DownloadChunk(name: string, offset: int, chunkSize: int, part: nat, progress: array<real>, chunks: seq<seq<byte>>)
    returns (request: string, written: seq<byte>, calls: nat, ending: Ending)
    requires 1 <= part <= progress.Length
    modifies progress
    ensures request == DownloadCommand(name, offset, chunkSize)
    ensures Download(written, calls, ending) == Accumulate(chunkSize, [], chunks)
    ensures forall j :: 0 <= j < progress.Length && j != part - 1 ==> progress[j] == old(progress[j])
    ensures written == [] ==> progress[part - 1] == old(progress[part - 1])
    ensures written != [] ==> chunkSize > 0 && progress[part - 1] == Percent(|written|, chunkSize)
  {
    request := DownloadCommand(name, offset, chunkSize);
    var receivedSize := 0;
    written, calls := [], 0;
    ending := Waiting;
    assert chunks[0..] == chunks;
    while receivedSize < chunkSize
      invariant calls <= |chunks| && receivedSize == |written|
      invariant Accumulate(chunkSize, [], chunks) == Accumulate(chunkSize, written, chunks[calls..]).(calls := calls + Accumulate(chunkSize, written, chunks[calls..]).calls)
      invariant forall j :: 0 <= j < progress.Length && j != part - 1 ==> progress[j] == old(progress[j])
      invariant written == [] ==> progress[part - 1] == old(progress[part - 1])
      invariant written != [] ==> chunkSize > 0 && progress[part - 1] == Percent(|written|, chunkSize)
      decreases |chunks| - calls
    {
      if calls == |chunks| {
        return;
      }
      var data := chunks[calls];
      assert chunks[calls..][0] == data && chunks[calls..][1..] == chunks[calls + 1..];
      calls := calls + 1;
      if data == [] {
        ending := PeerClosed;
        return;
      }
      written := written + data;
      receivedSize := receivedSize + |data|;
      progress[part - 1] := Percent(receivedSize, chunkSize);
    }
    ending := Filled;
  }
}
