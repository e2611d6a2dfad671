# Multithreaded file downloader: a verified model of its sequential core

The system is a pair of file servers and a pair of clients: one pair over
UDP and one over TCP. A server loads a catalog of file names and sizes,
answers `LIST` with one `"name size bytes"` line per file, and serves byte
ranges of those files.

- **UDP server.** It serves a range with a Go-Back-N sender. A 12-byte
  header is followed by sequence-numbered packets of up to 1024 bytes, sent
  through a sliding window of 4. The window moves on cumulative ACKs, and
  every timeout resends the whole window.
- **TCP server.** It reads the range and writes it to the stream.
- **Clients.** A client splits a file into four contiguous segments and
  downloads each one in its own thread.
  - The UDP client uses a stop-and-wait (alternating-bit) loop with a retry
    limit.
  - The TCP client runs a plain accumulation loop.
  - Both clients then merge the four part files into the final file.

This project models those algorithms in Dafny, with the network replaced by
explicit sequences of events. Each algorithm is written in the form the
code has:

- Loops become methods with loop invariants.
- Objects that change become classes with `modifies` clauses.
- Parsing and formatting become functions.
- Each method is proved equal to a pure specification function, and the
  properties the code promises are proved about those functions as lemmas.

Modules, one per file:

- `Bytes`, `Seqs`, `Files`, `Text`, `PyDict`, `Wrappers` model the Python
  primitives the code relies on:
  - `struct`'s big-endian fields;
  - `split()`, `rsplit(" ", 2)`, `split("\n")`, `lower()`, `in`, `replace`,
    `int()` and `str()` on integers;
  - insertion-ordered dicts;
  - `seek` followed by `read`.
- `Catalog`: `load_file_metadata` (identical in both servers).
- `Listing`: the `LIST` reply format and the clients' parsing of it.
- `Commands`: the request lines the clients send.
- `Framing`: packet slicing, the header, data packets and ACK parsing of
  `send_file_gbn`.
- `GbnSender`: the Go-Back-N window, written as the `Sender` class with
  `FillWindow`, `OnAck` and `OnTimeout`, and the whole `send_file_gbn`.
- `UdpServer`, `TcpServer`: `handle_client_request` and `handle_client`.
- `Partition`: the segment arithmetic of `download_file`.
- `AltBit`: `download_chunk` of the UDP client.
- `TcpReceiver`: `download_chunk` of the TCP client.
- `Progress`: the progress figure both clients write.
- `Merge`: `merge_file`, written as the `Downloads` class over a folder map.

Inputs the code gets from the outside are parameters:

- the catalog file's lines;
- the request text;
- the server's files, as a map from name to bytes;
- what each `recvfrom` or `recv` returns, as a sequence of events, with
  timeouts as events;
- the download folder, as a map from name to bytes.

A session whose events run out while its loop is still running ends with
the outcome `Waiting` (`Open` for a TCP connection). That outcome stands
for "blocked in the next receive".

## Model

| member | source | states |
|---|---|---|
| Catalog.ParseSize | serverUDP.py:20-27 | A size token is accepted only when its lowercased form contains "mb" or "gb". A token with neither is refused with the lowercased token as the error. |
| Catalog.ParseSizeOfUnit | serverUDP.py:22-25 | `<n>` followed by "mb" in any letter case gives n·1024² bytes; followed by "gb" it gives n·1024³. |
| Catalog.SizeExamples | serverTCP.py:16-21 | "2MB" is 2·1024·1024 bytes and "1GB" is 1024³ bytes. |
| Catalog.SmallUnitsRefused | serverTCP.py:22-23 | "512KB" and "100B" raise the unsupported-format error, because the code has no B or KB unit. |
| Catalog.LoadFileMetadata | serverUDP.py:15-29 | The loop over the lines returns exactly `Load(lines)`: the catalog, or the first error. |
| Catalog.LoadOkIff | serverTCP.py:14-25 | The catalog loads if and only if every line parses. |
| Catalog.LoadFirstError | serverUDP.py:18-27 | A failed load reports the error of the first line that does not parse, and every earlier line parses. |
| Catalog.LoadKeepsFirstError | serverTCP.py:14-23 | Lines after the first bad one do not change the result. |
| Catalog.LoadContents | serverUDP.py:28 | The loaded dict has unique names, in order of first appearance, and each name has the size from its last line (a later line overwrites an earlier one). |
| Catalog.LoadNamesHaveNoSpace | serverUDP.py:19 | No loaded name contains whitespace. |
| Listing.ParseListing | clientUDP.py:161-165 | The client's parsing loop returns `ParseLines` of the reply's lines. |
| Listing.ParseLinesKeepsError | clientTCP.py:96 | The first `int(size)` that raises decides the result, whatever lines follow. |
| Listing.ParseFormattedEntry | clientUDP.py:162-165 | A line the server formats parses back to its name and size, even when the name contains spaces. |
| Listing.ParseLinesContents | clientTCP.py:92-96 | Unless a size is rejected, the client keeps exactly the lines that split into three fields ending in "bytes". Later duplicates overwrite earlier ones, and names keep their first position. |
| Listing.EmptyListing | serverUDP.py:85 | An empty catalog lists as "", which parses to an empty dict. |
| Listing.ListingRoundTrip | serverUDP.py:85 | For a catalog with unique, newline-free names, parsing the formatted listing gives back the same catalog, in the same order. |
| Listing.LoadedCatalogRoundTrip | serverTCP.py:37-39 | For every catalog a server can load, the formatted `LIST` reply parses back to that catalog, in order (the clients' single 4096-byte receive is under Left out). |
| Commands.WordsOfDownloadCommand | clientTCP.py:20 | The server splits the TCP client's `DOWNLOAD` line back into its four fields. |
| Commands.WordsOfRequestCommand | clientUDP.py:44 | The server splits the UDP client's `REQUEST` line back into its five fields. |
| Bytes.ValueOfBigEndian | serverUDP.py:43 | Unpacking a packed unsigned big-endian field gives the value back, for every value that fits. |
| Bytes.BigEndianOfValue | serverUDP.py:64 | Packing an unpacked field gives the same bytes back. |
| Bytes.BigEndianInjective | serverUDP.py:35 | Different values that fit a field have different encodings. |
| Files.ReadAt | serverTCP.py:50-51 | `seek(pos)` then `read(n)` returns the `min(n, bytes left)` bytes that start at `pos`, and nothing past the end. |
| Files.ReadAtSplit | serverUDP.py:41-42 | Two adjacent reads return what one longer read returns. |
| Framing.TotalPackets | serverUDP.py:34 | For a non-negative size, the count is the ceiling of size / 1024: the fewest packets that hold the range. |
| Framing.EncodeHeader | serverUDP.py:35 | `struct.pack('!Q I')` succeeds exactly when the size fits 8 bytes and the count fits 4. Its result is 12 bytes, and decoding them gives back both numbers. |
| Framing.EncodeDecodedHeader | serverUDP.py:35 | Every 12-byte string is the header of the pair it decodes to. |
| Framing.HeaderEncodesIff | serverUDP.py:34-35 | The header of a range can be built if and only if 0 <= size <= (2³²-1)·1024. |
| Framing.DataPacket | serverUDP.py:43 | A data packet is 4 + payload-length bytes long. Its first 4 bytes hold the sequence number and the rest is the payload. |
| Framing.SlicePackets | serverUDP.py:38-44 | The slicing loop yields one packet per sequence number. Packet `i` holds `i` and the `f.read(PACKET_SIZE)` that follows the reads before it: the 1024 bytes from `offset + i·1024`, fewer only at the end of the file, also for the last packet (see Findings). |
| Framing.PayloadWithinAsWritten | serverUDP.py:41-42 | Each corrected payload is a prefix of what the code reads for that packet, and equal to it for every packet that ends inside the range. |
| Framing.PayloadsCoverSegment | serverUDP.py:39-44 | The corrected payloads, concatenated in order, are exactly the requested range `[offset, offset+size)`, truncated at the end of the file. |
| Framing.PayloadsPrefix | serverUDP.py:41-42 | The first `k` payloads cover the first `min(k·1024, size)` bytes of the range. |
| Framing.AsWrittenPayloadsOvershoot | serverUDP.py:41-42 | As written, the payloads of `k` packets are the `k·1024` bytes from `offset` on, whatever the requested size. |
| Framing.AsWrittenOvershootExample | serverUDP.py:41-42 | For a 2048-byte file and a 1500-byte range at 0: 2 packets, 2048 payload bytes as written, 1500 after the correction. |
| Framing.ParseAckDatagram | serverUDP.py:63-64 | `b"ACK"` followed by a 4-byte big-endian `n` and any trailer reads as an acknowledgment of `n`. |
| GbnSender.Fill | serverUDP.py:56-58 | The inner send loop keeps `base` and never lowers `next_seq_num`. When it ends, its condition is false. When it sent anything, `next_seq_num <= min(total, base + WINDOW_SIZE)`. |
| GbnSender.FillReachesWindowEnd | serverUDP.py:56-58 | From a bounded window, the fill ends with `next_seq_num == min(total_packets, base + WINDOW_SIZE)`, and the numbers sent are strictly increasing. |
| GbnSender.Acked | serverUDP.py:65-66 | An ACK below `base` changes nothing. Any other ACK sets `base` to `ack_seq + 1`. `next_seq_num` is untouched either way. |
| GbnSender.Retransmission | serverUDP.py:69-70 | A timeout resends at most `WINDOW_SIZE` numbers: consecutive, starting at `base`, all below `total_packets`. |
| GbnSender.RetransmitsOutstanding | serverUDP.py:67-70 | After a fill, a timeout resends exactly the numbers `[base, next_seq_num)`, in order. |
| GbnSender.React | serverUDP.py:60-72 | An event never lowers `base` or changes `next_seq_num`, and resends only numbers in `[base, total)`. A timeout leaves the window as it is and resends `Retransmission`. A datagram not starting with `b"ACK"` changes nothing and resends nothing. The sender aborts exactly on an `ACK` datagram too short to unpack. |
| GbnSender.Session | serverUDP.py:54-72 | Over any events, every number sent is below `total_packets`, and both counters only grow. The session completes if and only if `base` reaches `total_packets`. |
| GbnSender.SessionKeepsBounded | serverUDP.py:46-47 | `next_seq_num - base <= WINDOW_SIZE` and `next_seq_num <= total_packets` hold from the start through every session. |
| GbnSender.SessionKeepsOrdered | serverUDP.py:54-66 | When every ACK names a packet already sent, `0 <= base <= next_seq_num <= total_packets` holds in the window the session ends with. |
| GbnSender.AcksOnlySentPrefix | serverUDP.py:58-63 | If every ACK of a run of events names a sent packet, so does every ACK of each shorter run. |
| GbnSender.SessionKeepsOrderedThroughout | serverUDP.py:54-66 | Under the same condition, the window is ordered after every prefix of the events, that is throughout the session. |
| GbnSender.AckBeyondWindowBurst | serverUDP.py:65-66 | An ACK beyond `next_seq_num` moves `base` past it, and the next fill then sends more than `WINDOW_SIZE` packets (11 at once here). |
| GbnSender.LosslessSessionSendsEachPacketOnce | serverUDP.py:54-66 | When the receiver sends one cumulative ACK per window, naming that window's last packet (`LosslessAcks`), every packet is sent exactly once, in order, and the session completes. |
| GbnSender.Sender.constructor | serverUDP.py:46-47 | A sender starts with `base == next_seq_num == 0` over its packets. |
| GbnSender.Sender.FillWindow | serverUDP.py:56-58 | The method moves the window as `Fill` does and returns the numbers it sent, `[old next_seq_num, new next_seq_num)`. |
| GbnSender.Sender.OnAck | serverUDP.py:63-66 | The window becomes `Acked(window, n)`. |
| GbnSender.Sender.OnTimeout | serverUDP.py:67-70 | The method returns `Retransmission(window)` and changes nothing. |
| GbnSender.Sender.OnEvent | serverUDP.py:60-72 | The method handles one received datagram or timeout as `React` does. On an abort it leaves the window unchanged. |
| GbnSender.Sender.Serve | serverUDP.py:46-72 | The window loop ends in the state, sent numbers and outcome of `Session`. The datagrams on the wire are the packets of those numbers, in order. |
| GbnSender.SendFileGbn | serverUDP.py:31-76 | Nothing is sent when the header cannot be packed. Otherwise the header goes first. An offset `f.seek` refuses (negative, or `2^63` and above) stops right after the header. Otherwise the datagrams after the header are the data packets of the session's sent numbers, in order, each carrying the 1024-byte read the code makes for it. |
| GbnSender.ServeSegment | serverUDP.py:38-72 | After the header, the datagrams are the data packets of the session's sent numbers, in order, each carrying the file's 1024 bytes from `offset + n·1024` that `f.read(PACKET_SIZE)` returns. The outcome is the session's. |
| UdpServer.Dispatch | serverUDP.py:78-107 | The server stays silent if and only if the request has no words. It starts a download only for `DOWNLOAD name offset size` with integer fields and a name that is both in the catalog and on disk. |
| UdpServer.ListIgnoresArguments | serverUDP.py:84-86 | `LIST`, with any further words, is answered with the listing. |
| UdpServer.DownloadCommandDispatch | serverUDP.py:87-105 | A well-formed `DOWNLOAD` gets "ERROR: File not found" when the name is not in the catalog, "ERROR: File not found on server" when it is missing on disk, and the transfer otherwise. |
| UdpServer.BadNumbersRefused | serverUDP.py:89-94 | A `DOWNLOAD` whose offset or size `int()` rejects gets "ERROR: Invalid offset/size". |
| UdpServer.OtherCommandsRefused | serverUDP.py:106-107 | Any other command, and `DOWNLOAD` with a wrong field count, gets "ERROR: Invalid command". |
| UdpServer.AlternatingBitRequestRefused | serverUDP.py:83-107 | The UDP client's `REQUEST` line is answered with "ERROR: Invalid command". |
| UdpServer.HandleClientRequest | serverUDP.py:78-107 | The response is the dispatch's: silence, the message, or the `send_file_gbn` transfer of the named file from the offset: the header, a stop after it when `f.seek` refuses the offset, else the session's packets as the code reads them. |
| TcpServer.Converse | serverTCP.py:31-58 | Each request yields at most one reply. A connection still open has answered every request. |
| TcpServer.HandleClient | serverTCP.py:29-58 | The request loop sends exactly the replies of `Converse` and ends as it does. |
| TcpServer.EmptyReadEnds | serverTCP.py:32-34 | An empty receive ends the connection with no reply. |
| TcpServer.ListAnswered | serverTCP.py:37-39 | `LIST` is answered with the listing, and the connection goes on. |
| TcpServer.DownloadCommandResponse | serverTCP.py:40-52 | For a well-formed `DOWNLOAD`, an unknown name gets "ERROR: File not found", then a file missing on disk, an offset `f.seek` refuses (negative, or `2^63` and above) or a size `f.read` refuses (below -1, or `2^63` and above) closes the connection. A size of -1 reads to the end of the file, and otherwise the range's bytes are sent. |
| TcpServer.UnknownNameRefused | serverTCP.py:44-45 | A `DOWNLOAD` for a name not in the catalog is answered with "ERROR: File not found". |
| TcpServer.UnknownNameKeepsServing | serverTCP.py:44-46 | After that refusal, the connection goes on serving the later requests. |
| TcpServer.DownloadNegativeSize | serverTCP.py:50-51 | For a catalogued file and an accepted offset, a size of -1 sends the rest of the file from `offset`, and any smaller size closes the connection. |
| TcpServer.DownloadSendsRange | serverTCP.py:48-52 | For an offset and size below `2^63`, `DOWNLOAD name offset size` sends the file's bytes `[offset, offset+size)`, truncated at the end of the file. An offset of `2^63` or more fails in `seek`, and a size of `2^63` or more fails in `read`. Either failure closes the connection. |
| TcpServer.WrongArgumentCountCloses | serverTCP.py:40-58 | A `DOWNLOAD` without exactly three arguments raises, and the connection closes with no reply. |
| TcpServer.OtherCommandsRefused | serverTCP.py:53-54 | An unrecognised command is answered with "ERROR: Invalid command". |
| TcpServer.BlankRequestCloses | serverTCP.py:36 | Every non-empty request of whitespace only raises on unpacking, which closes the connection. |
| TcpServer.BlankRequestExample | serverTCP.py:36 | The request `" "` is such a request. |
| Partition.Segments | clientUDP.py:94-97 | Part `k` gets offset `k·q` and size `q`, except the last, which gets `file_size - 3q`. |
| Partition.SegmentsTile | clientUDP.py:96-97 | The segments start at 0, each starts where the previous one ends, and the last ends at `file_size`. |
| Partition.SizesSum | clientTCP.py:57-58 | The four sizes add up to `file_size`. |
| Partition.LastTakesRemainder | clientUDP.py:91-97 | The last part is larger than each other part by `file_size % 4` (0 to 3 bytes). For a non-negative size, no part is negative. |
| Partition.SegmentsReassemble | clientTCP.py:51-58 | The reads of the four segments, concatenated in part order, are the whole file. |
| Progress.Percent | clientUDP.py:55 | The progress figure lies between 0 and 100 while the count is within the part, and is 100 when the part is complete. |
| AltBit.Flip | clientUDP.py:56 | `seq_num ^= 1` turns 0 into 1 and 1 into 0. |
| AltBit.WordsOfRequest | clientUDP.py:44 | The request carries the name, the offset, `CHUNK_SIZE` and the expected bit as separate words. |
| AltBit.ReadDataReply | clientUDP.py:48-49 | A reply whose header is `"SEQ b"` reads as a payload numbered `b`. |
| AltBit.Handle | clientUDP.py:47-64 | A timeout adds one retry and sends nothing. A reply that cannot be decoded or numbered raises. A reply numbered with the expected bit appends its payload, adds its length, flips the bit, resets the retries, and sends `ACK` with the new bit. Any other reply changes nothing. |
| AltBit.Receive | clientUDP.py:43-64 | The loop ends `Done` only with `received_size >= chunk_size`, and `GaveUp` only with `retries >= RETRY_LIMIT`. |
| AltBit.HandleKeepsConsistent | clientUDP.py:52-64 | While the loop runs, each turn keeps `received_size == len(written)`, the bit in {0, 1} and `retries <= RETRY_LIMIT`. |
| AltBit.ReceiveKeepsConsistent | clientUDP.py:43-64 | Those facts hold at the end of every run: `retries` never exceeds `RETRY_LIMIT`, and `received_size` counts the bytes written. |
| AltBit.RequestAsksForNextByte | clientUDP.py:44 | Each request asks for `offset` plus the number of bytes already written. |
| AltBit.ReceiveExtendsWritten | clientUDP.py:52-54 | The part file only grows: what was written stays its prefix. |
| AltBit.SilenceGivesUp | clientUDP.py:61-64 | `k` timeouts in a row, with `retries = RETRY_LIMIT - k`, resend the same request `k` times, write nothing and give up. |
| AltBit.InOrderDelivery | clientUDP.py:43-60 | Over a loss-free channel whose non-empty payloads carry the expected bits and add up to the rest of the chunk, the part file gains exactly those payloads, in order, and the loop ends `Done`. |
| AltBit.ReadEvent | clientUDP.py:47-49 | The decoding of a reply equals `Read`. |
| AltBit.Step | clientUDP.py:52-64 | The state change of a turn equals `Handle`, and only progress slot `part - 1` is written. |
| AltBit.Turn | clientUDP.py:44-64 | One request-and-reply turn: either the run stops here with what `Receive` gives, or `Receive` continues from the new state on the remaining events. |
| AltBit.DownloadChunk | clientUDP.py:32-71 | The loop's part file, sent datagrams and outcome are those of `Receive` from `(0, 0, 0, b"")`. No other progress slot changes. Once bytes were written, slot `part - 1` holds their percentage of `chunk_size`. Otherwise it keeps its old value or holds 0. |
| TcpReceiver.Accumulate | clientTCP.py:25-30 | The loop ends `Filled` only with at least `chunk_size` bytes, `PeerClosed` only right after an empty `recv`, and `Waiting` only with every chunk read. |
| TcpReceiver.AccumulateAppendsChunks | clientTCP.py:24-30 | The part file is what it held before, followed by every chunk read, in order. The empty chunk that ends the stream adds nothing. |
| TcpReceiver.NeverReadsAfterStop | clientTCP.py:25-28 | Before every `recv`, fewer than `chunk_size` bytes had arrived and no earlier `recv` had been empty. |
| TcpReceiver.AccumulateStops | clientTCP.py:25-28 | A full part reads nothing more, and an empty `recv` stops the loop at once. |
| TcpReceiver.WholeRangeFills | clientTCP.py:25-30 | When the server sends the rest of the range in non-empty pieces, the part file is exactly those bytes and the loop ends `Filled`. |
| TcpReceiver.DownloadChunk | clientTCP.py:16-35 | The method sends `DOWNLOAD name offset size`, then behaves as `Accumulate`. It writes only progress slot `part - 1`, which ends at the percentage of the bytes received once any have arrived. |
| Merge.PartNameDistinct | clientTCP.py:40 | `"<name>.part<i>"` is never the final file's name, and different `i` give different names. |
| Merge.PartList | clientTCP.py:39-40 | The part files opened are exactly `"<name>.part1"` to `"<name>.part<total_parts>"`, in that order; none for `total_parts <= 0`. |
| Merge.PartListNames | clientTCP.py:40 | Those part names are pairwise distinct and none is the final file's name. |
| Merge.MergeParts | clientTCP.py:38-43 | The final file stays in the folder whatever the parts. |
| Merge.MergeSpec | clientUDP.py:74-81 | `merge_file` on a folder always leaves the final file present. |
| Merge.MergePartsPrefix | clientUDP.py:76-81 | With the first `j` part files present and the next missing or past the last: the final file gains those parts in order, exactly those part files are removed, nothing else changes, and the merge is complete only when none is missing. |
| Merge.MergeConcatenates | clientUDP.py:74-81 | With all parts present, the final file is the concatenation of parts 1..`total_parts` in index order. Every part file is removed and nothing else in the folder changes. |
| Merge.MissingPartStops | clientTCP.py:41-42 | When part `j` is the first one missing, the merge fails. The final file holds parts 1..`j-1`, those parts are removed, and the later parts stay. |
| Merge.MergeTwiceEmpties | clientTCP.py:39-42 | A second merge after a complete one does not reproduce the file: it empties it and fails. |
| Merge.MergeReassembles | clientTCP.py:50-80 | When each part file holds the bytes its segment covers, merging gives back the original file and removes the four part files. |
| Merge.Downloads.MergeFile | clientTCP.py:38-44 | The method changes the folder exactly as `MergeSpec` describes and reports whether every part was there. |

## Left out

- Sockets, `connect`/`accept`, `bind`/`listen`. What each receive returns is an input event, and a timeout is an event, not a clock.
- Threads. Each segment's thread and each request thread is one sequential session. Their sharing of the UDP socket, where one transfer's `recvfrom` can take another's ACKs, is not modelled.
- UTF-8 decoding of requests and headers. Requests are modelled as decoded text. A reply header is either decoded text or a decode failure.
- `recvfrom(CHUNK_SIZE + 64)` truncating a longer datagram, and the 1024-byte limit of a `recv`: datagrams and chunks have any length.
- The clients read the `LIST` reply with one `recvfrom(4096)` (UDP) or `recv(4096)` (TCP). A listing longer than 4096 bytes arrives cut short, or fails to decode when the cut splits a UTF-8 sequence. `Listing.LoadedCatalogRoundTrip` is about the reply as the server formats it, not about what those receives deliver.
- The UDP server sends the whole listing as one `sendto`. A listing larger than a UDP datagram can carry makes `sendto` raise; datagram size limits are not modelled.
- A `f.read(size)` whose size fits in `Py_ssize_t` but not in memory (a `MemoryError`) is not modelled: the read returns the bytes that exist.
- Floating-point rounding of the progress figures: `Progress.Percent` is an exact real.
- The progress display, `wait_for_user`, `display_file_list` with `format_size`, and the `input.txt` watch loop of both clients: screen and keyboard I/O with no state the downloads read.
- `calculate_checksum`: a hash library call whose result is never used.
- `start_server` and the servers' accept/receive loops that start threads, beyond the one session per request or connection that is modelled.
- The UDP client and the UDP server are modelled only against their own formats. The client sends `REQUEST …` and expects a 64-byte text header. The server accepts only `DOWNLOAD` and sends binary packets. `UdpServer.AlternatingBitRequestRefused` records what the server makes of the client's request.
- The `BlockingIOError` branch of `send_file_gbn` (a sleep, and the socket is blocking anyway) and the final `print`.
- Exceptions raised while opening sockets or files are not modelled, apart from those listed per module. Those are a missing part in `merge_file`, a missing file in the TCP server, the offsets that `f.seek` refuses in both servers (`Files.SeekAccepts`), and the sizes that `f.read` refuses in the TCP server (`Files.ReadAccepts`). The UDP client's outer `except` is the outcome `Crashed`.
- `str.isspace` is modelled as the fixed set of whitespace code points Python uses. `int()` accepts ASCII digits with optional sign, surrounding whitespace and single underscores; non-ASCII digits are not modelled.
- `lower()` is modelled for ASCII letters only.
- Files are byte sequences and the download folder is a map. `open`, `seek` and `read` are slices and map updates.

## Where the documented behaviour and the code differ

The system's design documentation promises some behaviour the code does not have. The model follows the code:

- **Size units.** The documentation lists catalog units B, KB, MB and GB, case-insensitive. The catalog code accepts only "mb" and "gb" (in any case). "B" and "KB" raise the unsupported-format error (`Catalog.SmallUnitsRefused`).
- **Merge size check and idempotence.** The documentation says the merge checks the assembled size against the expected one, and that re-running it over a completed set gives the same output. The code does neither. A second merge after a complete one empties the final file and fails, because the first part is gone (`Merge.MergeTwiceEmpties`).
- **UDP client protocol.** The documentation describes a Go-Back-N receiver with cumulative ACKs that resends its last ACK on a timeout. The UDP client is a stop-and-wait receiver that resends its request. It gives up after `RETRY_LIMIT = 5` consecutive timeouts.
- **UDP sender retries.** The documentation asks for a bounded retry count on every timeout. The UDP sender retransmits without any bound. A session that the events leave unfinished ends `Waiting`.

## Findings

| source | as written | input that shows it | evidently intended | confidence | as-written member | corrected member |
|---|---|---|---|---|---|---|
| serverUDP.py:41-43 | Every data packet reads `PACKET_SIZE` bytes, so the last packet runs past the requested range, by up to 1023 bytes. | A 2048-byte file with `offset = 0` and `chunk_size = 1500`: 2 packets carry 2048 bytes, while the header announces 1500. | The last packet is cut at the end of the range, so the payloads concatenate to exactly `[offset, offset + chunk_size)`. | not executed | Framing.AsWrittenOvershootExample | Framing.PayloadsCoverSegment |

The transfer members (`Framing.SlicePackets`, `GbnSender.ServeSegment`, `GbnSender.SendFileGbn`, `UdpServer.HandleClientRequest`) send the packets as the code reads them. `Framing.Payloads` is the corrected slicing, and `Framing.PayloadWithinAsWritten` relates the two packet by packet.
