/** `handle_client_request` of the UDP server: one datagram's words decide
    between silence, the listing, an error message and a Go-Back-N transfer.
    `onDisk` holds the catalog names whose file exists under the server's
    directory (`os.path.exists`). The text is the request after UTF-8
    decoding; `strip()` before `split()` changes nothing. */
module UdpServer {
  import opened Wrappers
  import opened Text
  import opened PyDict
  import opened Listing
  import opened Commands
  import opened Bytes
  import opened Files
  import opened Framing
  import opened GbnSender

  const INVALID_NUMBERS: string := "ERROR: Invalid offset/size"
  const NOT_FOUND: string := "ERROR: File not found"
  const NOT_ON_SERVER: string := "ERROR: File not found on server"
  const INVALID_COMMAND: string := "ERROR: Invalid command"

  datatype Action =
    | Silent
    | Reply(message: string)
    | Download(name: string, offset: int, size: int)

  /** The branch `handle_client_request` takes for a request. */
  function Dispatch(request: string, metadata: Metadata, onDisk: set<string>): (a: Action)
    ensures a == Silent <==> Words(request) == []
    ensures a.Download? ==>
              var parts := Words(request);
              && |parts| == 4 && parts[0] == "DOWNLOAD" && parts[1] == a.name
              && ParseInt(parts[2]) == Some(a.offset) && ParseInt(parts[3]) == Some(a.size)
              && a.name in Keys(metadata) && a.name in onDisk
  {
    DispatchWords(Words(request), metadata, onDisk)
  }

  /** The same decision, on the request's words. */
  function DispatchWords(parts: seq<string>, metadata: Metadata, onDisk: set<string>): Action
  {
    if parts == [] then Silent
    else if parts[0] == "LIST" then Reply(FormatListing(metadata))
    else if parts[0] == "DOWNLOAD" && |parts| == 4 then
      match (ParseInt(parts[2]), ParseInt(parts[3]))
      case (Some(offset), Some(size)) =>
        if parts[1] !in Keys(metadata) then Reply(NOT_FOUND)
        else if parts[1] !in onDisk then Reply(NOT_ON_SERVER)
        else Download(parts[1], offset, size)
      case _ => Reply(INVALID_NUMBERS)
    else Reply(INVALID_COMMAND)
  }

  /** `LIST` is answered with the listing whatever words follow it. */
  lemma ListIgnoresArguments(args: seq<string>, metadata: Metadata, onDisk: set<string>)
    requires forall i :: 0 <= i < |args| ==> IsWord(args[i])
    ensures Dispatch(JoinSpaced(["LIST"] + args), metadata, onDisk) == Reply(FormatListing(metadata))
  {
    CommandNamesAreWords();
    WordsOfCommandLine("LIST", args);
  }

  /** A well-formed download command: the catalog is consulted first, the
      disk second, and a request that passes both starts the transfer of
      exactly the segment the command names. */
  lemma DownloadCommandDispatch(name: string, offset: int, size: int, metadata: Metadata, onDisk: set<string>)
    requires IsWord(name)
    ensures Dispatch(DownloadCommand(name, offset, size), metadata, onDisk)
            == if name !in Keys(metadata) then Reply(NOT_FOUND)
               else if name !in onDisk then Reply(NOT_ON_SERVER)
               else Download(name, offset, size)
  {
    WordsOfDownloadCommand(name, offset, size);
    DispatchByWords(DownloadCommand(name, offset, size), ["DOWNLOAD", name, IntToString(offset), IntToString(size)], metadata, onDisk);
    ParseIntOfString(offset);
    ParseIntOfString(size);
    DownloadWordsDispatch(name, IntToString(offset), IntToString(size), offset, size, metadata, onDisk);
  }

  lemma DispatchByWords(request: string, parts: seq<string>, metadata: Metadata, onDisk: set<string>)
    requires Words(request) == parts
    ensures Dispatch(request, metadata, onDisk) == DispatchWords(parts, metadata, onDisk)
  {
  }

  lemma DownloadWordsDispatch(name: string, offsetWord: string, sizeWord: string, offset: int, size: int,
                              metadata: Metadata, onDisk: set<string>)
    requires ParseInt(offsetWord) == Some(offset) && ParseInt(sizeWord) == Some(size)
    ensures DispatchWords(["DOWNLOAD", name, offsetWord, sizeWord], metadata, onDisk)
            == if name !in Keys(metadata) then Reply(NOT_FOUND)
               else if name !in onDisk then Reply(NOT_ON_SERVER)
               else Download(name, offset, size)
  {
    assert "DOWNLOAD" != "LIST" by { assert "DOWNLOAD"[0] != "LIST"[0]; }
  }

  /** A download command whose offset or size is not an integer literal is
      refused before the catalog is consulted. */
  lemma BadNumbersRefused(name: string, offset: string, size: string, metadata: Metadata, onDisk: set<string>)
    requires IsWord(name) && IsWord(offset) && IsWord(size)
    requires ParseInt(offset).None? || ParseInt(size).None?
    ensures Dispatch(JoinSpaced(["DOWNLOAD", name, offset, size]), metadata, onDisk) == Reply(INVALID_NUMBERS)
  {
    assert NoSpace("DOWNLOAD");
    WordsOfJoinSpaced(["DOWNLOAD", name, offset, size]);
  }

  /** A download command with other than three arguments, or any first word
      other than `LIST` and `DOWNLOAD`, is an invalid command. */
  lemma OtherCommandsRefused(command: string, args: seq<string>, metadata: Metadata, onDisk: set<string>)
    requires IsWord(command) && forall i :: 0 <= i < |args| ==> IsWord(args[i])
    requires command != "LIST" && (command == "DOWNLOAD" ==> |args| != 3)
    ensures Dispatch(JoinSpaced([command] + args), metadata, onDisk) == Reply(INVALID_COMMAND)
  {
    WordsOfCommandLine(command, args);
  }

  /** The request line of the repository's own UDP client (`REQUEST ...`) is
      not a command this server knows. */
  lemma AlternatingBitRequestRefused(name: string, offset: int, size: int, bit: int, metadata: Metadata, onDisk: set<string>)
    requires IsWord(name)
    ensures Dispatch(RequestCommand(name, offset, size, bit), metadata, onDisk) == Reply(INVALID_COMMAND)
  {
    WordsOfRequestCommand(name, offset, size, bit);
  }

  /** What the server puts on the wire in answer to one request. */
  datatype Response =
    | NoResponse
    | Message(text: string)
    | Transfer(datagrams: seq<seq<byte>>, outcome: TransferOutcome)

  /** `handle_client_request`: the dispatch, then `send_file_gbn` for a
      download. `files` maps each name present on disk to its bytes;
      `events` are what the transfer's `recvfrom` calls return. */
  method HandleClientRequest(request: string, metadata: Metadata, files: map<string, seq<byte>>, events: seq<Event>)
    returns (r: Response)
    ensures Dispatch(request, metadata, files.Keys) == Silent ==> r == NoResponse
    ensures Dispatch(request, metadata, files.Keys).Reply? ==> r == Message(Dispatch(request, metadata, files.Keys).message)
    ensures Dispatch(request, metadata, files.Keys).Download? ==>
              var a := Dispatch(request, metadata, files.Keys);
              && r.Transfer?
              && (r.outcome == HeaderRefused <==> EncodeHeader(a.size, TotalPackets(a.size)).None?)
              && (r.outcome != HeaderRefused ==> r.datagrams != [] && r.datagrams[0] == EncodeHeader(a.size, TotalPackets(a.size)).value)
              && (r.outcome == SeekRefused <==> r.outcome != HeaderRefused && !SeekAccepts(a.offset))
              && (r.outcome.Served? ==>
                    var t := Session(Window(0, 0), TotalPackets(a.size), events);
                    && SeekAccepts(a.offset) && a.size >= 0 && r.outcome.outcome == t.outcome && |r.datagrams| == 1 + |t.sent|
                    && forall k :: 0 <= k < |t.sent| ==>
                         r.datagrams[1 + k] == DataPacket(t.sent[k], AsWrittenPayload(files[a.name], a.offset, t.sent[k])))
  {
    var action := Dispatch(request, metadata, files.Keys);
    match action {
      case Silent =>
        r := NoResponse;
      case Reply(m) =>
        r := Message(m);
      case Download(name, offset, size) =>
        var datagrams, outcome := SendFileGbn(files[name], offset, size, events);
        r := Transfer(datagrams, outcome);
    }
  }
}
