/** The request lines the clients send, and what `split()` makes of them on
    the server side. */
module Commands {
  import opened Text

  /** `f"DOWNLOAD {file_name} {offset} {chunk_size}"` (the TCP client): the
      fields separated by single spaces. */
  function DownloadCommand(name: string, offset: int, size: int): string
  {
    JoinSpaced(["DOWNLOAD", name, IntToString(offset), IntToString(size)])
  }

  /** `f"REQUEST {file_name} {offset + received_size} {CHUNK_SIZE} {seq_num}"`
      (the UDP client's alternating-bit request). */
  function RequestCommand(name: string, offset: int, size: int, bit: int): string
  {
    JoinSpaced(["REQUEST", name, IntToString(offset), IntToString(size), IntToString(bit)])
  }

  /** `f"ACK {seq_num}"` (the UDP client's acknowledgment). */
  function AckMessage(bit: int): string
  {
    JoinSpaced(["ACK", IntToString(bit)])
  }

  /** A file name a command line can carry: one `split()` word. */
  predicate IsWord(name: string)
  {
    name != [] && NoSpace(name)
  }

  /** The server splits a download command back into its four fields. */
  lemma WordsOfDownloadCommand(name: string, offset: int, size: int)
    requires IsWord(name)
    ensures Words(DownloadCommand(name, offset, size))
            == ["DOWNLOAD", name, IntToString(offset), IntToString(size)]
  {
    assert NoSpace("DOWNLOAD");
    WordsOfJoinSpaced(["DOWNLOAD", name, IntToString(offset), IntToString(size)]);
  }

  /** The same for the alternating-bit request: five fields. */
  lemma WordsOfRequestCommand(name: string, offset: int, size: int, bit: int)
    requires IsWord(name)
    ensures Words(RequestCommand(name, offset, size, bit))
            == ["REQUEST", name, IntToString(offset), IntToString(size), IntToString(bit)]
  {
    assert NoSpace("REQUEST");
    WordsOfJoinSpaced(["REQUEST", name, IntToString(offset), IntToString(size), IntToString(bit)]);
  }

  /** A command word followed by argument words, joined by single spaces,
      splits back into the same words. */
  lemma WordsOfCommandLine(command: string, args: seq<string>)
    requires IsWord(command) && forall i :: 0 <= i < |args| ==> IsWord(args[i])
    ensures Words(JoinSpaced([command] + args)) == [command] + args
  {
    var ws := [command] + args;
    forall i | 0 <= i < |ws| ensures ws[i] != [] && NoSpace(ws[i]) {
      if i > 0 { assert ws[i] == args[i - 1]; }
    }
    WordsOfJoinSpaced(ws);
  }

  lemma CommandNamesAreWords()
    ensures IsWord("LIST") && IsWord("DOWNLOAD") && IsWord("REQUEST") && IsWord("ACK")
  {
    assert NoSpace("LIST") && NoSpace("DOWNLOAD") && NoSpace("REQUEST") && NoSpace("ACK");
  }
}
