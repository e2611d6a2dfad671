/** `download_chunk` of the UDP client: a stop-and-wait (alternating-bit)
    receiver. Each turn sends a `REQUEST` for the next byte, then handles one
    reply: a reply whose header names the expected bit is accepted (its
    payload appended to the part file, the bit flipped and acknowledged, the
    retry counter reset); a reply with the other bit is ignored; a timeout
    counts a retry. The loop stops at `chunk_size` bytes or after
    `RETRY_LIMIT` retries in a row. */
module AltBit {
  import opened Wrappers
  import opened Text
  import opened Bytes
  import opened Seqs
  import opened Commands
  import opened Progress

  const CHUNK_SIZE: nat := 1024
  const RETRY_LIMIT: nat := 5

  /** One `recvfrom` of the receive loop. A reply is split as the client
      splits it: `header` is the UTF-8 decoding of its first 64 bytes (`None`
      where `decode()` raises), `payload` the bytes after them. */
  datatype Event = Reply(header: Option<string>, payload: seq<byte>) | Timeout

  /** `received_size`, `seq_num`, `retries` and the part file written so far. */
  datatype Receiver = Receiver(received: int, bit: int, retries: nat, written: seq<byte>)

  const START: Receiver := Receiver(0, 0, 0, [])

  /** `seq_num ^= 1` for a bit. */
  function Flip(bit: int): (r: int)
    ensures bit == 0 ==> r == 1
    ensures bit == 1 ==> r == 0
  {
    if bit == 0 then 1 else 0
  }

  /** The sequence number a reply header carries: `int(header.split()[1])`,
      `None` where that raises. */
  function HeaderNumber(header: string): Option<int>
  {
    var words := Words(header);
    if |words| < 2 then None else ParseInt(words[1])
  }

  /** What the loop makes of one event: a timeout, a reply it cannot read
      (`decode()`, the index or `int()` raises), or a numbered payload. */
  datatype Reading = TimedOut | Unreadable | Numbered(number: int, payload: seq<byte>)

  function Read(e: Event): Reading
  {
    match e
    case Timeout => TimedOut
    case Reply(header, payload) =>
      if header.None? then Unreadable
      else match HeaderNumber(header.value)
        case None => Unreadable
        case Some(n) => Numbered(n, payload)
  }

  /** The loop's reading of each event, in order. */
  function Readings(events: seq<Event>): (rs: seq<Reading>)
    ensures |rs| == |events|
  {
    if events == [] then [] else [Read(events[0])] + Readings(events[1..])
  }

  lemma {:induction false} ReadingAt(events: seq<Event>, i: nat)
    requires i < |events|
    ensures Readings(events)[i] == Read(events[i])
  {
    if i > 0 {
      ReadingAt(events[1..], i - 1);
    }
  }

  /** What one event does: the next state and the acknowledgments sent, or
      `Raised` when an exception other than the timeout leaves the loop. */
  datatype Handled = Raised | Handled(next: Receiver, acks: seq<Message>)

  function Handle(r: Receiver, x: Reading): (h: Handled)
    ensures h.Raised? <==> x.Unreadable?
    ensures x.TimedOut? ==> h == Handled(r.(retries := r.retries + 1), [])
    ensures x.Numbered? && x.number == r.bit ==>
              h == Handled(Receiver(r.received + |x.payload|, Flip(r.bit), 0, r.written + x.payload), [Ack(Flip(r.bit))])
    ensures x.Numbered? && x.number != r.bit ==> h == Handled(r, [])
  {
    match x
    case TimedOut => Handled(r.(retries := r.retries + 1), [])
    case Unreadable => Raised
    case Numbered(n, payload) =>
      if n == r.bit then Handled(Receiver(r.received + |payload|, Flip(r.bit), 0, r.written + payload), [Ack(Flip(r.bit))])
      else Handled(r, [])
  }

  /** Whether the `while` condition holds. */
  predicate Running(r: Receiver, chunkSize: int)
  {
    r.received < chunkSize && r.retries < RETRY_LIMIT
  }

  /** The request sent at the top of each turn. */
  function NextRequest(name: string, offset: int, r: Receiver): Message
  {
    Request(name, offset + r.received, r.bit)
  }

  datatype ChunkOutcome =
    | Done     // `received_size >= chunk_size`
    | GaveUp   // `retries` reached `RETRY_LIMIT`
    | Crashed  // an exception other than the timeout: caught by the outer handler
    | Waiting  // the events ran out while the loop was still running

  /** A datagram the receiver sends: a `REQUEST` for the bytes from `offset`
      on under the expected bit, or the `ACK` of the next expected bit. */
  datatype Message = Request(name: string, offset: int, bit: int) | Ack(bit: int)

  /** The text of a message on the wire. */
  function Wire(m: Message): string
  {
    match m
    case Request(name, offset, bit) => RequestCommand(name, offset, CHUNK_SIZE, bit)
    case Ack(bit) => AckMessage(bit)
  }

  /** A request the server splits back into its fields, the size being
      `CHUNK_SIZE`. */
  lemma WordsOfRequest(name: string, offset: int, bit: int)
    requires IsWord(name)
    ensures Words(Wire(Request(name, offset, bit)))
            == ["REQUEST", name, IntToString(offset), IntToString(CHUNK_SIZE), IntToString(bit)]
  {
    WordsOfRequestCommand(name, offset, CHUNK_SIZE, bit);
  }

  /** Where the receiver ends, the datagrams it sent, in order, and why it
      stopped. */
  datatype Receipt = Receipt(final: Receiver, sent: seq<Message>, outcome: ChunkOutcome)

  function Receive(name: string, offset: int, chunkSize: int, r: Receiver, events: seq<Reading>): (t: Receipt)
    ensures t.outcome == Done ==> t.final.received >= chunkSize
    ensures t.outcome == GaveUp ==> t.final.retries >= RETRY_LIMIT
    decreases |events|
  {
    if !Running(r, chunkSize) then Receipt(r, [], if r.retries >= RETRY_LIMIT then GaveUp else Done)
    else
      var request := NextRequest(name, offset, r);
      if events == [] then Receipt(r, [request], Waiting)
      else match Handle(r, events[0])
        case Raised => Receipt(r, [request], Crashed)
        case Handled(next, acks) =>
          var rest := Receive(name, offset, chunkSize, next, events[1..]);
          Receipt(rest.final, [request] + acks + rest.sent, rest.outcome)
  }

  /** The counters agree with the part file: `received_size` is the number of
      bytes written, `seq_num` is a bit, `retries` is within the limit. */
  predicate Consistent(r: Receiver)
  {
    r.received == |r.written| && (r.bit == 0 || r.bit == 1) && r.retries <= RETRY_LIMIT
  }

  /** Every turn of a running loop keeps the counters consistent. */
  lemma HandleKeepsConsistent(r: Receiver, chunkSize: int, e: Reading)
    requires Consistent(r) && Running(r, chunkSize) && Handle(r, e).Handled?
    ensures Consistent(Handle(r, e).next)
  {
  }

  /** From a consistent start the receiver never leaves a consistent state:
      in particular `retries` never exceeds `RETRY_LIMIT` and the part file
      holds exactly `received_size` bytes. */
  lemma {:induction false} ReceiveKeepsConsistent(name: string, offset: int, chunkSize: int, r: Receiver, events: seq<Reading>)
    requires Consistent(r)
    ensures Consistent(Receive(name, offset, chunkSize, r, events).final)
    decreases |events|
  {
    if Running(r, chunkSize) && events != [] {
      match Handle(r, events[0])
      case Raised =>
      case Handled(next, acks) =>
        HandleKeepsConsistent(r, chunkSize, events[0]);
        ReceiveKeepsConsistent(name, offset, chunkSize, next, events[1..]);
    }
  }

  /** Each request of a consistent receiver asks for the first byte not yet
      in the part file. */
  lemma RequestAsksForNextByte(name: string, offset: int, r: Receiver)
    requires Consistent(r)
    ensures Wire(NextRequest(name, offset, r)) == RequestCommand(name, offset + |r.written|, CHUNK_SIZE, r.bit)
  {
  }

  /** The part file only grows, by whole accepted payloads. */
  lemma {:induction false} ReceiveExtendsWritten(name: string, offset: int, chunkSize: int, r: Receiver, events: seq<Reading>)
    ensures var w := Receive(name, offset, chunkSize, r, events).final.written;
            |r.written| <= |w| && w[..|r.written|] == r.written
    decreases |events|
  {
    if Running(r, chunkSize) && events != [] {
      match Handle(r, events[0])
      case Raised =>
      case Handled(next, acks) =>
        ReceiveExtendsWritten(name, offset, chunkSize, next, events[1..]);
        var w := Receive(name, offset, chunkSize, next, events[1..]).final.written;
        assert w[..|r.written|] == w[..|next.written|][..|r.written|];
    }
  }

  /** A silent server: `k` timeouts in a row end a running receiver whose
      retry counter is `RETRY_LIMIT - k`; it sends the same request `k`
      times, writes nothing and gives up. */
  lemma {:induction false} SilenceGivesUp(name: string, offset: int, chunkSize: int, r: Receiver, k: nat, rest: seq<Reading>)
    requires r.received < chunkSize && r.retries + k == RETRY_LIMIT && k > 0
    ensures Receive(name, offset, chunkSize, r, seq(k, _ => TimedOut) + rest)
            == Receipt(r.(retries := RETRY_LIMIT), seq(k, _ => NextRequest(name, offset, r)), GaveUp)
    decreases k
  {
    var events := seq(k, _ => TimedOut) + rest;
    assert events[0] == TimedOut;
    var next := r.(retries := r.retries + 1);
    if k == 1 {
      assert !Running(next, chunkSize);
      assert seq(1, _ => NextRequest(name, offset, r)) == [NextRequest(name, offset, r)];
    } else {
      assert events[1..] == seq(k - 1, _ => TimedOut) + rest;
      SilenceGivesUp(name, offset, chunkSize, next, k - 1, rest);
      assert NextRequest(name, offset, next) == NextRequest(name, offset, r);
      assert [NextRequest(name, offset, r)] + seq(k - 1, _ => NextRequest(name, offset, r))
             == seq(k, _ => NextRequest(name, offset, r));
    }
  }

  /** A reply header whose second word is `bit`. */
  function DataHeader(bit: int): string
  {
    JoinSpaced(["SEQ", IntToString(bit)])
  }

  /** A loss-free, in-order sender, as the receiver reads it: each payload
      carries the bit the receiver expects at that point. */
  function InOrder(payloads: seq<seq<byte>>, bit: int): seq<Reading>
    decreases |payloads|
  {
    if payloads == [] then [] else [Numbered(bit, payloads[0])] + InOrder(payloads[1..], Flip(bit))
  }

  /** A reply under `DataHeader(bit)` reads as a payload numbered `bit`. */
  lemma ReadDataReply(bit: int, payload: seq<byte>)
    ensures Read(Reply(Some(DataHeader(bit)), payload)) == Numbered(bit, payload)
  {
    HeaderNumberOfDataHeader(bit);
  }

  lemma HeaderNumberOfDataHeader(bit: int)
    ensures HeaderNumber(DataHeader(bit)) == Some(bit)
  {
    assert NoSpace("SEQ");
    WordsOfJoinSpaced(["SEQ", IntToString(bit)]);
    ParseIntOfString(bit);
  }

  lemma FlattenCons(p: seq<byte>, ps: seq<seq<byte>>)
    ensures Flatten([p] + ps) == p + Flatten(ps)
    ensures TotalLength([p] + ps) == |p| + TotalLength(ps)
  {
    FlattenAppend([p], ps);
    assert [p][..0] == [];
    FlattenLength([p] + ps);
    FlattenLength(ps);
  }

  /** Over a loss-free channel whose non-empty payloads add up to the rest of
      the chunk, the part file receives exactly those payloads, in order. */
  lemma {:induction false} InOrderDelivery(name: string, offset: int, chunkSize: int, r: Receiver, payloads: seq<seq<byte>>)
    requires r.retries < RETRY_LIMIT && payloads != []
    requires forall i :: 0 <= i < |payloads| ==> payloads[i] != []
    requires r.received + TotalLength(payloads) == chunkSize
    ensures var t := Receive(name, offset, chunkSize, r, InOrder(payloads, r.bit));
            t.final.written == r.written + Flatten(payloads) && t.outcome == Done
    decreases |payloads|
  {
    var p, ps := payloads[0], payloads[1..];
    assert payloads == [p] + ps;
    FlattenCons(p, ps);
    FlattenLength(ps);
    var events := InOrder(payloads, r.bit);
    var next := Receiver(r.received + |p|, Flip(r.bit), 0, r.written + p);
    assert events[0] == Numbered(r.bit, p) && events[1..] == InOrder(ps, next.bit);
    ReceiveStep(name, offset, chunkSize, r, events);
    if ps == [] {
      assert Flatten(ps) == [];
      assert !Running(next, chunkSize);
    } else {
      InOrderDelivery(name, offset, chunkSize, next, ps);
      assert next.written + Flatten(ps) == r.written + Flatten(payloads);
    }
  }

  /** One turn of the loop, for a receiver that keeps running through it. */
  lemma ReceiveStep(name: string, offset: int, chunkSize: int, r: Receiver, events: seq<Reading>)
    requires Running(r, chunkSize) && events != [] && Handle(r, events[0]).Handled?
    ensures var h := Handle(r, events[0]);
            var rest := Receive(name, offset, chunkSize, h.next, events[1..]);
            Receive(name, offset, chunkSize, r, events)
            == Receipt(rest.final, [NextRequest(name, offset, r)] + h.acks + rest.sent, rest.outcome)
  {
  }

  /** The parsing half of the `try` block: `data[:64].decode()`, then
      `int(header.split()[1])`. */
  method ReadEvent(e: Event) returns (x: Reading)
    ensures x == Read(e)
  {
    match e {
      case Timeout =>
        x := TimedOut;
      case Reply(header, payload) =>
        if header.None? {
          return Unreadable;
        }
        var words := Words(header.value);
        if |words| < 2 {
          return Unreadable;
        }
        var ackSeq := ParseInt(words[1]);
        if ackSeq.None? {
          return Unreadable;
        }
        x := Numbered(ackSeq.value, payload);
    }
  }

  /** The rest of one turn after a readable reply or a timeout: accept,
      ignore, or count a retry; an accepted payload also updates this part's
      progress slot and is acknowledged. */
  method Step(receivedSize: int, seqNum: int, retries: nat, written: seq<byte>, reading: Reading,
              chunkSize: int, part: nat, progress: array<real>)
    returns (receivedSize': int, seqNum': int, retries': nat, written': seq<byte>, acks: seq<Message>)
    requires !reading.Unreadable? && 1 <= part <= progress.Length
    requires 0 <= receivedSize < chunkSize && receivedSize == |written|
    modifies progress
    ensures Handle(Receiver(receivedSize, seqNum, retries, written), reading)
            == Handled(Receiver(receivedSize', seqNum', retries', written'), acks)
    ensures forall j :: 0 <= j < progress.Length && j != part - 1 ==> progress[j] == old(progress[j])
    ensures (progress[part - 1] == old(progress[part - 1]) && written' == written) || progress[part - 1] == Percent(receivedSize', chunkSize)
  {
    receivedSize', seqNum', retries', written', acks := receivedSize, seqNum, retries, written, [];
    if reading.TimedOut? {
      retries' := retries + 1;
    } else if reading.number == seqNum {
      written' := written + reading.payload;
      receivedSize' := receivedSize + |reading.payload|;
      progress[part - 1] := Percent(receivedSize', chunkSize);
      seqNum' := Flip(seqNum);
      acks := [Ack(seqNum')];
      retries' := 0;
    }
  }

  /** `sent` followed by what a receipt sent. */
  function Prepend(sent: seq<Message>, t: Receipt): Receipt
  {
    Receipt(t.final, sent + t.sent, t.outcome)
  }

  lemma PrependTwice(a: seq<Message>, b: seq<Message>, t: Receipt)
    ensures Prepend(a, Prepend(b, t)) == Prepend(a + b, t)
  {
    assert a + (b + t.sent) == (a + b) + t.sent;
  }

  /** One turn of the loop: the request, then one event. `stop` is the
      outcome when the turn leaves the loop. */
  method Turn(name: string, offset: int, chunkSize: int, part: nat, progress: array<real>,
              receivedSize: int, seqNum: int, retries: nat, written: seq<byte>, events: seq<Event>)
    returns (receivedSize': int, seqNum': int, retries': nat, written': seq<byte>, newly: seq<Message>, stop: Option<ChunkOutcome>)
    requires 1 <= part <= progress.Length
    requires 0 <= receivedSize < chunkSize && receivedSize == |written| && retries < RETRY_LIMIT
    modifies progress
    ensures receivedSize' == |written'|
    ensures var here := Receive(name, offset, chunkSize, Receiver(receivedSize, seqNum, retries, written), Readings(events));
            if stop.Some? then written' == written && here == Receipt(Receiver(receivedSize, seqNum, retries, written), newly, stop.value)
            else events != [] &&
                 here == Prepend(newly, Receive(name, offset, chunkSize, Receiver(receivedSize', seqNum', retries', written'), Readings(events[1..])))
    ensures forall j :: 0 <= j < progress.Length && j != part - 1 ==> progress[j] == old(progress[j])
    ensures (progress[part - 1] == old(progress[part - 1]) && written' == written) || progress[part - 1] == Percent(receivedSize', chunkSize)
  {
    receivedSize', seqNum', retries', written' := receivedSize, seqNum, retries, written;
    ghost var r := Receiver(receivedSize, seqNum, retries, written);
    var request := Request(name, offset + receivedSize, seqNum);
    newly := [request];
    if events == [] {
      return receivedSize', seqNum', retries', written', newly, Some(Waiting);
    }
    var reading := ReadEvent(events[0]);
    if reading.Unreadable? {
      return receivedSize', seqNum', retries', written', newly, Some(Crashed);
    }
    var acks;
    receivedSize', seqNum', retries', written', acks := Step(receivedSize, seqNum, retries, written, reading, chunkSize, part, progress);
    newly := newly + acks;
    stop := None;
    ReceiveStep(name, offset, chunkSize, r, Readings(events));
  }

  /** The receive loop of `download_chunk`. `progress` is the list shared by
      the download threads; this part writes only slot `part - 1`. */
  method DownloadChunk(name: string, offset: int, chunkSize: int, part: nat, progress: array<real>, events: seq<Event>)
    returns (written: seq<byte>, sent: seq<Message>, outcome: ChunkOutcome)
    requires 1 <= part <= progress.Length
    modifies progress
    ensures var t := Receive(name, offset, chunkSize, START, Readings(events));
            written == t.final.written && sent == t.sent && outcome == t.outcome
    ensures forall j :: 0 <= j < progress.Length && j != part - 1 ==> progress[j] == old(progress[j])
    ensures written != [] ==> chunkSize > 0 && progress[part - 1] == Percent(|written|, chunkSize)
    ensures written == [] ==> progress[part - 1] == old(progress[part - 1])
                              || (chunkSize > 0 && progress[part - 1] == Percent(0, chunkSize))
  {
    var receivedSize, seqNum := 0, 0;
    var retries: nat := 0;
    written, sent := [], [];
    var i := 0;
    ghost var total := Receive(name, offset, chunkSize, START, Readings(events));
    assert events[0..] == events;
    while receivedSize < chunkSize && retries < RETRY_LIMIT
      invariant i <= |events| && receivedSize == |written|
      invariant total == Prepend(sent, Receive(name, offset, chunkSize, Receiver(receivedSize, seqNum, retries, written), Readings(events[i..])))
      invariant forall j :: 0 <= j < progress.Length && j != part - 1 ==> progress[j] == old(progress[j])
      invariant written != [] ==> chunkSize > 0 && progress[part - 1] == Percent(|written|, chunkSize)
      invariant written == [] ==> progress[part - 1] == old(progress[part - 1])
                                  || (chunkSize > 0 && progress[part - 1] == Percent(0, chunkSize))
      decreases |events| - i
    {
      var newly, stop;
      ghost var before := sent;
      receivedSize, seqNum, retries, written, newly, stop := Turn(name, offset, chunkSize, part, progress, receivedSize, seqNum, retries, written, events[i..]);
      sent := sent + newly;
      if stop.Some? {
        return written, sent, stop.value;
      }
      PrependTwice(before, newly, Receive(name, offset, chunkSize, Receiver(receivedSize, seqNum, retries, written), Readings(events[i + 1..])));
      assert events[i..][1..] == events[i + 1..];
      i := i + 1;
    }
    outcome := if retries >= RETRY_LIMIT then GaveUp else Done;
  }
}
