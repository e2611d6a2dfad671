/** The datagrams of the UDP server's Go-Back-N transfer (`send_file_gbn`):
    a 12-byte header `struct.pack('!Q I', chunk_size, total_packets)`, data
    packets `struct.pack('!I', seq_num) + data`, and the acknowledgments
    `b'ACK'` followed by a big-endian `u32` that the server accepts. */
module Framing {
  import opened Wrappers
  import opened Bytes
  import opened Seqs
  import opened Files

  const PACKET_SIZE: nat := 1024

  /** `total_packets = (chunk_size + PACKET_SIZE - 1) // PACKET_SIZE`. Python's
      floor division and Dafny's division agree for a positive divisor. */
  function TotalPackets(chunkSize: int): (t: int)
    ensures chunkSize >= 0 ==> t >= 0 && (t - 1) * PACKET_SIZE < chunkSize <= t * PACKET_SIZE
    ensures chunkSize == 0 ==> t == 0
  {
    (chunkSize + PACKET_SIZE - 1) / PACKET_SIZE
  }

  /** `struct.pack('!Q I', chunk_size, total_packets)`: no padding between the
      fields under `'!'`; `None` where `struct.pack` raises. */
  function EncodeHeader(chunkSize: int, totalPackets: int): (r: Option<seq<byte>>)
    ensures r.Some? <==> Fits(chunkSize, 8) && Fits(totalPackets, 4)
    ensures r.Some? ==> |r.value| == 12 && DecodeHeader(r.value) == Some((chunkSize, totalPackets))
  {
    if Fits(chunkSize, 8) && Fits(totalPackets, 4) then
      var h := BigEndian(chunkSize, 8) + BigEndian(totalPackets, 4);
      assert h[..8] == BigEndian(chunkSize, 8) && h[8..] == BigEndian(totalPackets, 4);
      ValueOfBigEndian(chunkSize, 8);
      ValueOfBigEndian(totalPackets, 4);
      Some(h)
    else None
  }

  /** `struct.unpack('!Q I', header)`: a length and a packet count. */
  function DecodeHeader(header: seq<byte>): Option<(int, int)>
  {
    if |header| == 12 then Some((Value(header[..8]) as int, Value(header[8..]) as int)) else None
  }

  /** Every 12-byte header is the encoding of what it decodes to. */
  lemma EncodeDecodedHeader(header: seq<byte>)
    requires |header| == 12
    ensures EncodeHeader(DecodeHeader(header).value.0, DecodeHeader(header).value.1) == Some(header)
  {
    BigEndianOfValue(header[..8]);
    BigEndianOfValue(header[8..]);
    FieldBounds();
    assert header[..8] + header[8..] == header;
  }

  /** The header packs exactly for segment lengths from 0 up to
      `(2^32 - 1) * PACKET_SIZE`; for any other length `struct.pack` raises
      before a single datagram is sent. */
  lemma HeaderEncodesIff(chunkSize: int)
    ensures EncodeHeader(chunkSize, TotalPackets(chunkSize)).Some?
            <==> 0 <= chunkSize <= (U32_BOUND - 1) * PACKET_SIZE
  {
    FieldBounds();
  }

  /** A header that packs carries a segment length and a packet count that
      the sender can go on to use. */
  lemma HeaderBounds(chunkSize: int)
    requires EncodeHeader(chunkSize, TotalPackets(chunkSize)).Some?
    ensures 0 <= chunkSize && 0 <= TotalPackets(chunkSize) < U32_BOUND
  {
    FieldBounds();
  }

  /** `struct.pack('!I', seq_num) + data` */
  function DataPacket(seqNum: nat, payload: seq<byte>): (p: seq<byte>)
    requires seqNum < U32_BOUND
    ensures |p| == 4 + |payload| && Value(p[..4]) == seqNum && p[4..] == payload
  {
    FieldBounds();
    var p := BigEndian(seqNum, 4) + payload;
    assert p[..4] == BigEndian(seqNum, 4);
    ValueOfBigEndian(seqNum, 4);
    p
  }

  /** The bytes of packet `seqNum` as the server reads them: `f.read(PACKET_SIZE)`
      after the previous packets' reads, i.e. a full packet's worth from
      `offset + seqNum * PACKET_SIZE` even for the last packet of the segment. */
  function AsWrittenPayload(file: seq<byte>, offset: nat, seqNum: nat): seq<byte>
  {
    ReadAt(file, offset + seqNum * PACKET_SIZE, PACKET_SIZE)
  }

  /** The bytes packet `seqNum` is meant to carry: the segment's bytes from
      `seqNum * PACKET_SIZE`, at most `PACKET_SIZE` of them and none past the
      end of the segment. */
  function Payload(file: seq<byte>, offset: nat, chunkSize: nat, seqNum: nat): seq<byte>
  {
    ReadAt(file, offset + seqNum * PACKET_SIZE, PayloadLength(chunkSize, seqNum))
  }

  function PayloadLength(chunkSize: nat, seqNum: nat): nat
  {
    var start := seqNum * PACKET_SIZE;
    if chunkSize <= start then 0 else Min(PACKET_SIZE, chunkSize - start)
  }

  function Payloads(file: seq<byte>, offset: nat, chunkSize: nat, count: nat): (ps: seq<seq<byte>>)
    ensures |ps| == count && forall i :: 0 <= i < count ==> ps[i] == Payload(file, offset, chunkSize, i)
  {
    seq(count, i requires 0 <= i < count => Payload(file, offset, chunkSize, i))
  }

  function AsWrittenPayloads(file: seq<byte>, offset: nat, count: nat): (ps: seq<seq<byte>>)
    ensures |ps| == count && forall i :: 0 <= i < count ==> ps[i] == AsWrittenPayload(file, offset, i)
  {
    seq(count, i requires 0 <= i < count => AsWrittenPayload(file, offset, i))
  }

  /** Read in order, the packets of a segment carry exactly the segment's
      bytes, `f.seek(offset); f.read(chunk_size)`. */
  lemma PayloadsCoverSegment(file: seq<byte>, offset: nat, chunkSize: nat)
    ensures Flatten(Payloads(file, offset, chunkSize, TotalPackets(chunkSize))) == ReadAt(file, offset, chunkSize)
  {
    var total := TotalPackets(chunkSize);
    PayloadsPrefix(file, offset, chunkSize, total);
    assert Min(total * PACKET_SIZE, chunkSize) == chunkSize;
  }

  lemma {:induction false} PayloadsPrefix(file: seq<byte>, offset: nat, chunkSize: nat, k: nat)
    requires k <= TotalPackets(chunkSize)
    ensures Flatten(Payloads(file, offset, chunkSize, k)) == ReadAt(file, offset, Min(k * PACKET_SIZE, chunkSize))
  {
    if k > 0 {
      var ps := Payloads(file, offset, chunkSize, k);
      assert ps[..k - 1] == Payloads(file, offset, chunkSize, k - 1);
      PayloadsPrefix(file, offset, chunkSize, k - 1);
      var start := (k - 1) * PACKET_SIZE;
      var len := PayloadLength(chunkSize, k - 1);
      LastPacketLength(chunkSize, k);
      assert ps[k - 1] == Payload(file, offset, chunkSize, k - 1);
      FlattenReadsOn(ps, file, offset, start, len);
    }
  }

  /** Reading one more piece right after the bytes read so far. */
  lemma FlattenReadsOn(ps: seq<seq<byte>>, file: seq<byte>, offset: nat, start: nat, len: nat)
    requires ps != []
    requires Flatten(ps[..|ps| - 1]) == ReadAt(file, offset, start)
    requires ps[|ps| - 1] == ReadAt(file, offset + start, len)
    ensures Flatten(ps) == ReadAt(file, offset, start + len)
  {
    ReadAtSplit(file, offset, start, len);
  }

  /** Packet `k - 1` of a segment starts inside it and ends where the first
      `k` packets end. */
  lemma LastPacketLength(chunkSize: nat, k: nat)
    requires 0 < k <= TotalPackets(chunkSize)
    ensures (k - 1) * PACKET_SIZE < chunkSize
    ensures Min((k - 1) * PACKET_SIZE, chunkSize) == (k - 1) * PACKET_SIZE
    ensures (k - 1) * PACKET_SIZE + PayloadLength(chunkSize, k - 1) == Min(k * PACKET_SIZE, chunkSize)
  {
  }

  /** What the server as written sends: every packet reads a full
      `PACKET_SIZE`, so the segment's packets carry the bytes up to the next
      multiple of `PACKET_SIZE`, not up to `chunk_size`. */
  lemma {:induction false} AsWrittenPayloadsOvershoot(file: seq<byte>, offset: nat, k: nat)
    ensures Flatten(AsWrittenPayloads(file, offset, k)) == ReadAt(file, offset, k * PACKET_SIZE)
  {
    if k > 0 {
      var ps := AsWrittenPayloads(file, offset, k);
      assert ps[..k - 1] == AsWrittenPayloads(file, offset, k - 1);
      AsWrittenPayloadsOvershoot(file, offset, k - 1);
      ReadAtSplit(file, offset, (k - 1) * PACKET_SIZE, PACKET_SIZE);
    }
  }

  /** A 2048-byte file whose first 1500 bytes are requested: the code sends
      2048 bytes (the second packet carries 1024 instead of 476). */
  lemma AsWrittenOvershootExample()
    ensures var file := seq(2048, _ => 0 as byte);
            TotalPackets(1500) == 2
            && |Flatten(AsWrittenPayloads(file, 0, 2))| == 2048
            && |Flatten(Payloads(file, 0, 1500, 2))| == 1500
  {
    var file := seq(2048, _ => 0 as byte);
    AsWrittenPayloadsOvershoot(file, 0, 2);
    PayloadsCoverSegment(file, 0, 1500);
  }

  /** The corrected payload of a packet is the start of what the server as
      written reads for it, and the two agree for every packet that ends
      inside the segment; only the last packet of a segment whose length is
      not a multiple of `PACKET_SIZE` carries the extra bytes. */
  lemma PayloadWithinAsWritten(file: seq<byte>, offset: nat, chunkSize: nat, seqNum: nat)
    ensures Payload(file, offset, chunkSize, seqNum) <= AsWrittenPayload(file, offset, seqNum)
    ensures (seqNum + 1) * PACKET_SIZE <= chunkSize
            ==> Payload(file, offset, chunkSize, seqNum) == AsWrittenPayload(file, offset, seqNum)
  {
  }

  /** The packets of one segment, sliced in sequence-number order: packet
      `i` carries `i` and the `f.read(PACKET_SIZE)` that follows the `i`
      reads before it, that is the file's bytes from `offset + i *
      PACKET_SIZE`. */
  method SlicePackets(file: seq<byte>, offset: nat, chunkSize: nat) returns (packets: seq<seq<byte>>)
    requires TotalPackets(chunkSize) < U32_BOUND
    ensures |packets| == TotalPackets(chunkSize)
    ensures forall i :: 0 <= i < |packets| ==> packets[i] == DataPacket(i, AsWrittenPayload(file, offset, i))
  {
    var total := TotalPackets(chunkSize);
    packets := [];
    var position := offset;
    for seqNum := 0 to total
      invariant |packets| == seqNum && position == offset + seqNum * PACKET_SIZE
      invariant forall i :: 0 <= i < seqNum ==> packets[i] == DataPacket(i, AsWrittenPayload(file, offset, i))
    {
      var data := ReadAt(file, position, PACKET_SIZE);
      packets := packets + [DataPacket(seqNum, data)];
      position := position + PACKET_SIZE;
    }
  }

  // ---------------------------------------------------------------------
  // acknowledgments

  const ACK_MARKER: seq<byte> := [65, 67, 75]  // b'ACK'

  /** What the server makes of one received datagram. */
  datatype AckParse =
    | NotAck           // does not start with b'ACK': ignored
    | Ack(number: nat) // `struct.unpack('!I', ack_data[3:7])[0]`
    | Truncated        // starts with b'ACK' but has fewer than 7 bytes: `struct.unpack` raises

  function ParseAck(datagram: seq<byte>): AckParse
  {
    if |datagram| < 3 || datagram[..3] != ACK_MARKER then NotAck
    else if |datagram| < 7 then Truncated
    else Ack(Value(datagram[3..7]))
  }

  /** `b'ACK' + struct.pack('!I', n)`, the acknowledgment a receiver sends. */
  function AckDatagram(n: nat): seq<byte>
    requires n < U32_BOUND
  {
    FieldBounds();
    ACK_MARKER + BigEndian(n, 4)
  }

  /** The server reads back the number a well-formed acknowledgment carries,
      whatever follows it in the datagram. */
  lemma ParseAckDatagram(n: nat, trailer: seq<byte>)
    requires n < U32_BOUND
    ensures ParseAck(AckDatagram(n) + trailer) == Ack(n)
  {
    FieldBounds();
    var d := AckDatagram(n) + trailer;
    assert d[..3] == ACK_MARKER;
    assert d[3..7] == BigEndian(n, 4);
    ValueOfBigEndian(n, 4);
  }
}
