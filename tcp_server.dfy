/** `handle_client` of the TCP server: a loop over the requests of one
    connection. Each request is answered by a pure function of the request,
    the catalog and the files; an empty read ends the loop, and any exception
    closes the connection. */
module TcpServer {
  import opened Wrappers
  import opened Text
  import opened PyDict
  import opened Bytes
  import opened Files
  import opened Listing
  import opened Commands

  const NOT_FOUND: string := "ERROR: File not found"
  const INVALID_COMMAND: string := "ERROR: Invalid command"

  /** What `sendall` puts on the stream. */
  datatype Reply = Text(message: string) | Data(bytes: seq<byte>)

  /** The exceptions that end `handle_client`. */
  datatype Failure =
    | NoCommand           // whitespace only: `command, *args = []` raises
    | WrongArgumentCount  // `file_name, offset, chunk_size = args` raises
    | BadNumber           // `int(offset)` or `int(chunk_size)` raises
    | MissingFile         // `open` raises: in the catalog but not on disk
    | SeekRefused         // `f.seek` raises: a negative offset, or one beyond `off_t`
    | ReadRefused         // `f.read` raises: a size below -1, or one beyond `Py_ssize_t`

  datatype Step = Answer(reply: Reply) | Close(failure: Failure) | EndOfStream

  /** `f.seek(offset); f.read(size)` for a size `f.read` accepts: `-1` reads
      to the end of the file. */
  function ReadRange(file: seq<byte>, offset: nat, size: int): seq<byte>
    requires ReadAccepts(size)
  {
    ReadAt(file, offset, if size == -1 then |file| else size)
  }

  /** One iteration of the request loop. */
  function Respond(request: string, metadata: Metadata, files: map<string, seq<byte>>): Step
  {
    if request == "" then EndOfStream
    else RespondWords(Words(request), metadata, files)
  }

  /** A request with a word in it is answered on its words. */
  lemma RespondOnWords(request: string, metadata: Metadata, files: map<string, seq<byte>>)
    requires Words(request) != []
    ensures Respond(request, metadata, files) == RespondWords(Words(request), metadata, files)
  {
    assert Words("") == [];
  }

  function RespondWords(parts: seq<string>, metadata: Metadata, files: map<string, seq<byte>>): Step
  {
    if parts == [] then Close(NoCommand)
    else if parts[0] == "LIST" then Answer(Text(FormatListing(metadata)))
    else if parts[0] == "DOWNLOAD" then
      if |parts| != 4 then Close(WrongArgumentCount)
      else match (ParseInt(parts[2]), ParseInt(parts[3]))
        case (Some(offset), Some(size)) =>
          if parts[1] !in Keys(metadata) then Answer(Text(NOT_FOUND))
          else if parts[1] !in files then Close(MissingFile)
          else if !SeekAccepts(offset) then Close(SeekRefused)
          else if !ReadAccepts(size) then Close(ReadRefused)
          else Answer(Data(ReadRange(files[parts[1]], offset, size)))
        case _ => Close(BadNumber)
    else Answer(Text(INVALID_COMMAND))
  }

  /** How a connection's request loop ends. */
  datatype Ending = PeerClosed | Failed(failure: Failure) | Open

  datatype Conversation = Conversation(replies: seq<Reply>, ending: Ending)

  /** The replies sent over one connection, in order, and how it ends; `Open`
      when the requests run out with the connection still serving. */
  function Converse(requests: seq<string>, metadata: Metadata, files: map<string, seq<byte>>): (c: Conversation)
    ensures |c.replies| <= |requests|
    ensures c.ending == Open ==> |c.replies| == |requests|
  {
    Play(Steps(requests, metadata, files))
  }

  /** The step each request would take, were it reached. */
  function Steps(requests: seq<string>, metadata: Metadata, files: map<string, seq<byte>>): (steps: seq<Step>)
    ensures |steps| == |requests|
    ensures forall i :: 0 <= i < |requests| ==> steps[i] == Respond(requests[i], metadata, files)
  {
    seq(|requests|, i requires 0 <= i < |requests| => Respond(requests[i], metadata, files))
  }

  /** The loop over the steps: answers until the first step that ends it. */
  function Play(steps: seq<Step>): (c: Conversation)
    ensures |c.replies| <= |steps|
    ensures c.ending == Open ==> |c.replies| == |steps|
  {
    if steps == [] then Conversation([], Open)
    else match steps[0]
      case EndOfStream => Conversation([], PeerClosed)
      case Close(f) => Conversation([], Failed(f))
      case Answer(r) =>
        var rest := Play(steps[1..]);
        Conversation([r] + rest.replies, rest.ending)
  }

  lemma StepsTail(requests: seq<string>, metadata: Metadata, files: map<string, seq<byte>>)
    requires requests != []
    ensures Steps(requests, metadata, files)[1..] == Steps(requests[1..], metadata, files)
  {
  }

  /** `handle_client`: `requests` are the successive `recv` results. */
  method HandleClient(requests: seq<string>, metadata: Metadata, files: map<string, seq<byte>>)
    returns (replies: seq<Reply>, ending: Ending)
    ensures Conversation(replies, ending) == Converse(requests, metadata, files)
  {
    ghost var steps := Steps(requests, metadata, files);
    replies := [];
    var i := 0;
    while i < |requests|
      invariant i <= |requests|
      invariant Play(steps) == Continued(replies, Play(steps[i..]))
    {
      var step := Respond(requests[i], metadata, files);
      PlayStep(steps, i);
      match step {
        case EndOfStream =>
          return replies, PeerClosed;
        case Close(f) =>
          return replies, Failed(f);
        case Answer(r) =>
          ContinuedTwice(replies, r, Play(steps[i + 1..]));
          replies := replies + [r];
      }
      i := i + 1;
    }
    assert steps[i..] == [];
    ending := Open;
  }

  /** The replies already sent, followed by the rest of the conversation. */
  function Continued(replies: seq<Reply>, rest: Conversation): Conversation
  {
    Conversation(replies + rest.replies, rest.ending)
  }

  lemma PlayStep(steps: seq<Step>, i: nat)
    requires i < |steps|
    ensures Play(steps[i..]) == match steps[i]
                                case EndOfStream => Conversation([], PeerClosed)
                                case Close(f) => Conversation([], Failed(f))
                                case Answer(r) => Continued([r], Play(steps[i + 1..]))
  {
    assert steps[i..][0] == steps[i] && steps[i..][1..] == steps[i + 1..];
  }

  lemma ContinuedTwice(replies: seq<Reply>, r: Reply, rest: Conversation)
    ensures Continued(replies, Continued([r], rest)) == Continued(replies + [r], rest)
  {
    assert replies + ([r] + rest.replies) == (replies + [r]) + rest.replies;
  }

  lemma ConverseAnswer(requests: seq<string>, metadata: Metadata, files: map<string, seq<byte>>, r: Reply)
    requires requests != [] && Respond(requests[0], metadata, files) == Answer(r)
    ensures var rest := Converse(requests[1..], metadata, files);
            Converse(requests, metadata, files) == Conversation([r] + rest.replies, rest.ending)
  {
    StepsTail(requests, metadata, files);
  }

  /** An empty read ends the loop: nothing more is read or answered. */
  lemma EmptyReadEnds(rest: seq<string>, metadata: Metadata, files: map<string, seq<byte>>)
    ensures Converse([""] + rest, metadata, files) == Conversation([], PeerClosed)
  {
    assert Steps([""] + rest, metadata, files)[0] == EndOfStream;
  }

  /** `LIST` is answered with the listing, whatever words follow it, and
      the connection keeps serving. */
  lemma ListAnswered(args: seq<string>, rest: seq<string>, metadata: Metadata, files: map<string, seq<byte>>)
    requires forall i :: 0 <= i < |args| ==> IsWord(args[i])
    ensures var c := Converse([JoinSpaced(["LIST"] + args)] + rest, metadata, files);
            var r := Converse(rest, metadata, files);
            c == Conversation([Text(FormatListing(metadata))] + r.replies, r.ending)
  {
    var request := JoinSpaced(["LIST"] + args);
    var requests := [request] + rest;
    CommandNamesAreWords();
    WordsOfCommandLine("LIST", args);
    RespondOnWords(request, metadata, files);
    assert requests[0] == request && requests[1..] == rest;
    ConverseAnswer(requests, metadata, files, Text(FormatListing(metadata)));
  }

  /** A well-formed download command: the catalog is consulted first, then
      the disk, then the offset, and a request that passes all three is
      answered with the bytes of the range. */
  lemma DownloadCommandResponse(name: string, offset: int, size: int, metadata: Metadata, files: map<string, seq<byte>>)
    requires IsWord(name)
    ensures Respond(DownloadCommand(name, offset, size), metadata, files)
            == if name !in Keys(metadata) then Answer(Text(NOT_FOUND))
               else if name !in files then Close(MissingFile)
               else if !SeekAccepts(offset) then Close(SeekRefused)
          else if !ReadAccepts(size) then Close(ReadRefused)
               else Answer(Data(ReadRange(files[name], offset, size)))
  {
    var parts := ["DOWNLOAD", name, IntToString(offset), IntToString(size)];
    WordsOfDownloadCommand(name, offset, size);
    RespondByWords(DownloadCommand(name, offset, size), parts, metadata, files);
    ParseIntOfString(offset);
    ParseIntOfString(size);
    DownloadWordsResponse(name, IntToString(offset), IntToString(size), offset, size, metadata, files);
  }

  lemma RespondByWords(request: string, parts: seq<string>, metadata: Metadata, files: map<string, seq<byte>>)
    requires Words(request) == parts && parts != []
    ensures Respond(request, metadata, files) == RespondWords(parts, metadata, files)
  {
    RespondOnWords(request, metadata, files);
  }

  lemma DownloadWordsResponse(name: string, offsetWord: string, sizeWord: string, offset: int, size: int,
                              metadata: Metadata, files: map<string, seq<byte>>)
    requires ParseInt(offsetWord) == Some(offset) && ParseInt(sizeWord) == Some(size)
    ensures RespondWords(["DOWNLOAD", name, offsetWord, sizeWord], metadata, files)
            == if name !in Keys(metadata) then Answer(Text(NOT_FOUND))
               else if name !in files then Close(MissingFile)
               else if !SeekAccepts(offset) then Close(SeekRefused)
          else if !ReadAccepts(size) then Close(ReadRefused)
               else Answer(Data(ReadRange(files[name], offset, size)))
  {
    assert "DOWNLOAD" != "LIST" by { assert "DOWNLOAD"[0] != "LIST"[0]; }
  }

  /** A download of a name outside the catalog is answered with an error. */
  lemma UnknownNameRefused(name: string, offset: int, size: int, metadata: Metadata, files: map<string, seq<byte>>)
    requires IsWord(name) && name !in Keys(metadata)
    ensures Respond(DownloadCommand(name, offset, size), metadata, files) == Answer(Text(NOT_FOUND))
  {
    DownloadCommandResponse(name, offset, size, metadata, files);
  }

  /** ... and the connection keeps serving the requests that follow. */
  lemma UnknownNameKeepsServing(name: string, offset: int, size: int, rest: seq<string>,
                                metadata: Metadata, files: map<string, seq<byte>>)
    requires IsWord(name) && name !in Keys(metadata)
    ensures var c := Converse([DownloadCommand(name, offset, size)] + rest, metadata, files);
            var r := Converse(rest, metadata, files);
            c == Conversation([Text(NOT_FOUND)] + r.replies, r.ending)
  {
    var requests := [DownloadCommand(name, offset, size)] + rest;
    UnknownNameRefused(name, offset, size, metadata, files);
    assert requests[0] == DownloadCommand(name, offset, size) && requests[1..] == rest;
    ConverseAnswer(requests, metadata, files, Text(NOT_FOUND));
  }

  /** A download of a catalogued file answers with its bytes from `offset`,
      `size` of them or up to the end of the file, whichever is shorter, as
      long as the file object accepts the offset and the size; otherwise
      the connection closes. */
  lemma DownloadSendsRange(name: string, offset: nat, size: nat, metadata: Metadata, files: map<string, seq<byte>>)
    requires IsWord(name) && name in Keys(metadata) && name in files
    ensures offset < OFF_T_BOUND && size < OFF_T_BOUND
            ==> Respond(DownloadCommand(name, offset, size), metadata, files)
                == Answer(Data(ReadAt(files[name], offset, size)))
    ensures offset >= OFF_T_BOUND
            ==> Respond(DownloadCommand(name, offset, size), metadata, files) == Close(SeekRefused)
    ensures offset < OFF_T_BOUND <= size
            ==> Respond(DownloadCommand(name, offset, size), metadata, files) == Close(ReadRefused)
  {
    DownloadCommandResponse(name, offset, size, metadata, files);
  }

  /** A negative size: `-1` sends the rest of the file from `offset`, and
      any smaller size makes `f.read` raise, which closes the connection. */
  lemma DownloadNegativeSize(name: string, offset: nat, size: int, metadata: Metadata, files: map<string, seq<byte>>)
    requires IsWord(name) && name in Keys(metadata) && name in files
    requires offset < OFF_T_BOUND && size < 0
    ensures size == -1 ==> Respond(DownloadCommand(name, offset, size), metadata, files)
                           == Answer(Data(ReadAt(files[name], offset, |files[name]|)))
    ensures size < -1 ==> Respond(DownloadCommand(name, offset, size), metadata, files) == Close(ReadRefused)
  {
    DownloadCommandResponse(name, offset, size, metadata, files);
  }

  /** A download command with other than three arguments closes the
      connection. */
  lemma WrongArgumentCountCloses(args: seq<string>, rest: seq<string>, metadata: Metadata, files: map<string, seq<byte>>)
    requires forall i :: 0 <= i < |args| ==> IsWord(args[i])
    requires |args| != 3
    ensures Converse([JoinSpaced(["DOWNLOAD"] + args)] + rest, metadata, files) == Conversation([], Failed(WrongArgumentCount))
  {
    var request := JoinSpaced(["DOWNLOAD"] + args);
    var parts := ["DOWNLOAD"] + args;
    CommandNamesAreWords();
    WordsOfCommandLine("DOWNLOAD", args);
    RespondByWords(request, parts, metadata, files);
    assert parts[0] == "DOWNLOAD" != "LIST" && |parts| != 4;
    ConverseClose([request] + rest, metadata, files, WrongArgumentCount);
  }

  lemma ConverseClose(requests: seq<string>, metadata: Metadata, files: map<string, seq<byte>>, f: Failure)
    requires requests != [] && Respond(requests[0], metadata, files) == Close(f)
    ensures Converse(requests, metadata, files) == Conversation([], Failed(f))
  {
    assert Steps(requests, metadata, files)[0] == Close(f);
  }

  /** Any other command word is answered with an error and the connection
      keeps serving. */
  lemma OtherCommandsRefused(command: string, args: seq<string>, metadata: Metadata, files: map<string, seq<byte>>)
    requires IsWord(command) && forall i :: 0 <= i < |args| ==> IsWord(args[i])
    requires command != "LIST" && command != "DOWNLOAD"
    ensures Respond(JoinSpaced([command] + args), metadata, files) == Answer(Text(INVALID_COMMAND))
  {
    WordsOfCommandLine(command, args);
    RespondOnWords(JoinSpaced([command] + args), metadata, files);
  }

  /** A request of white space only closes the connection:
      `command, *args = request.split()` has nothing to unpack. */
  lemma BlankRequestCloses(request: string, metadata: Metadata, files: map<string, seq<byte>>)
    requires request != "" && Words(request) == []
    ensures Respond(request, metadata, files) == Close(NoCommand)
  {
  }

  /** One blank: a request that is not empty and has no words. */
  lemma BlankRequestExample(metadata: Metadata, files: map<string, seq<byte>>)
    ensures Respond(" ", metadata, files) == Close(NoCommand)
  {
    assert IsSpace(' ');
    assert " "[1..] == "";
    BlankRequestCloses(" ", metadata, files);
  }
}
