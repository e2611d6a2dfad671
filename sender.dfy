/** The Go-Back-N sender of the UDP server (`send_file_gbn`): a window of at
    most `WINDOW_SIZE` unacknowledged packets, slid by cumulative
    acknowledgments and retransmitted whole when no datagram arrives within
    the timeout. The socket is replaced by a list of events, one per
    `recvfrom`: a datagram that arrived, or a timeout. */
module GbnSender {
  import opened Wrappers
  import opened Bytes
  import opened Seqs
  import opened Files
  import opened Framing

  const WINDOW_SIZE: nat := 4

  /** `base` is the oldest unacknowledged packet, `nextSeq` the next packet
      never sent. */
  datatype Window = Window(base: nat, nextSeq: nat)

  /** The inner send loop: `nextSeq` advances while it is below both `total`
      and `base + WINDOW_SIZE`. */
  function Fill(w: Window, total: nat): (r: Window)
    ensures r.base == w.base && w.nextSeq <= r.nextSeq
    ensures !(r.nextSeq < total && r.nextSeq < w.base + WINDOW_SIZE)
    ensures w.nextSeq < r.nextSeq ==> r.nextSeq <= total && r.nextSeq <= w.base + WINDOW_SIZE
  {
    var limit := Min(total, w.base + WINDOW_SIZE);
    if w.nextSeq < limit then Window(w.base, limit) else w
  }

  /** A received acknowledgment for packet `n`: cumulative, so every packet
      up to `n` counts as delivered; an older one is ignored. */
  function Acked(w: Window, n: nat): (r: Window)
    ensures r.nextSeq == w.nextSeq
    ensures n >= w.base ==> r.base == n + 1
    ensures n < w.base ==> r == w
  {
    if n >= w.base then Window(n + 1, w.nextSeq) else w
  }

  /** The packets sent again after a timeout: those from `base` to the end of
      the window. */
  function Retransmission(w: Window, total: nat): (r: seq<int>)
    ensures |r| <= WINDOW_SIZE
    ensures forall i :: 0 <= i < |r| ==> w.base <= r[i] < total && r[i] == w.base + i
  {
    Range(w.base, Min(w.base + WINDOW_SIZE, total))
  }

  datatype Event = Datagram(data: seq<byte>) | Timeout

  datatype Outcome =
    | Completed   // `base` reached `total_packets`
    | Aborted     // an acknowledgment too short to unpack: `struct.error` ends the transfer
    | Waiting     // the events ran out while packets are still unacknowledged

  /** The sequence numbers put on the wire, in order, and where the sender ends. */
  datatype Trace = Trace(final: Window, sent: seq<int>, outcome: Outcome)

  function Prepend(s: seq<int>, t: Trace): Trace
  {
    Trace(t.final, s + t.sent, t.outcome)
  }

  /** What one `recvfrom` does to the window filled by the send loop. */
  datatype Reaction = Continue(window: Window, resent: seq<int>) | Abort

  function React(f: Window, total: nat, e: Event): (r: Reaction)
    ensures r.Continue? ==> f.base <= r.window.base && r.window.nextSeq == f.nextSeq
    ensures r.Continue? ==> forall i :: 0 <= i < |r.resent| ==> f.base <= r.resent[i] < total
    ensures r.Abort? <==> e.Datagram? && ParseAck(e.data).Truncated?
    ensures e.Timeout? ==> r == Continue(f, Retransmission(f, total))
    ensures e.Datagram? && ParseAck(e.data).NotAck? ==> r == Continue(f, [])
  {
    match e
    case Timeout => Continue(f, Retransmission(f, total))
    case Datagram(d) =>
      match ParseAck(d)
      case NotAck => Continue(f, [])
      case Truncated => Abort
      case Ack(n) => Continue(Acked(f, n), [])
  }

  /** The Go-Back-N session from window `w`, one outer-loop iteration per event. */
  function Session(w: Window, total: nat, events: seq<Event>): (t: Trace)
    ensures forall i :: 0 <= i < |t.sent| ==> 0 <= t.sent[i] < total
    ensures w.base <= t.final.base && w.nextSeq <= t.final.nextSeq
    ensures t.outcome == Completed <==> t.final.base >= total
    decreases |events|
  {
    if w.base >= total then Trace(w, [], Completed)
    else
      var f := Fill(w, total);
      var newly := Range(w.nextSeq, f.nextSeq);
      if events == [] then Trace(f, newly, Waiting)
      else match React(f, total, events[0])
        case Abort => Trace(f, newly, Aborted)
        case Continue(next, resent) => Prepend(newly + resent, Session(next, total, events[1..]))
  }

  /** One turn of the outer loop, for a session that neither completes nor aborts in it. */
  lemma SessionStep(w: Window, total: nat, events: seq<Event>)
    requires w.base < total && events != []
    requires React(Fill(w, total), total, events[0]).Continue?
    ensures var f := Fill(w, total);
            var r := React(f, total, events[0]);
            Session(w, total, events)
            == Prepend(Range(w.nextSeq, f.nextSeq) + r.resent, Session(r.window, total, events[1..]))
  {
  }

  lemma PrependTwice(a: seq<int>, b: seq<int>, t: Trace)
    ensures Prepend(a, Prepend(b, t)) == Prepend(a + b, t)
  {
    assert a + (b + t.sent) == (a + b) + t.sent;
  }

  predicate SeqNumbersBelow(s: seq<int>, total: nat)
  {
    forall i :: 0 <= i < |s| ==> 0 <= s[i] < total
  }

  /** A window is well formed when nothing beyond the last packet has been
      sent and no more than `WINDOW_SIZE` packets are past `base`. */
  predicate Bounded(w: Window, total: nat)
  {
    w.nextSeq <= total && w.nextSeq <= w.base + WINDOW_SIZE
  }

  /** Every step keeps the window bounded, whatever the datagrams say. */
  lemma {:induction false} SessionKeepsBounded(w: Window, total: nat, events: seq<Event>)
    requires Bounded(w, total)
    ensures Bounded(Session(w, total, events).final, total)
    decreases |events|
  {
    if w.base < total && events != [] {
      var f := Fill(w, total);
      assert Bounded(f, total);
      match events[0]
      case Timeout =>
        SessionKeepsBounded(f, total, events[1..]);
      case Datagram(d) =>
        match ParseAck(d)
        case NotAck => SessionKeepsBounded(f, total, events[1..]);
        case Truncated =>
        case Ack(n) => SessionKeepsBounded(Acked(f, n), total, events[1..]);
    }
  }

  /** From a bounded window the send loop stops exactly at the end of the
      window or at the last packet, and the packets it sends go out in
      increasing order. */
  lemma FillReachesWindowEnd(w: Window, total: nat)
    requires Bounded(w, total)
    ensures Fill(w, total).nextSeq == Min(total, w.base + WINDOW_SIZE)
    ensures StrictlyIncreasing(Range(w.nextSeq, Fill(w, total).nextSeq))
  {
  }

  /** `base <= nextSeq` on top of `Bounded`. */
  predicate Ordered(w: Window, total: nat)
  {
    w.base <= w.nextSeq && Bounded(w, total)
  }

  /** Every acknowledgment in the events names a packet already sent when it
      arrives. */
  predicate AcksOnlySent(w: Window, total: nat, events: seq<Event>)
    decreases |events|
  {
    if w.base >= total || events == [] then true
    else
      var f := Fill(w, total);
      var parsed := if events[0].Datagram? then ParseAck(events[0].data) else NotAck;
      && (parsed.Ack? ==> parsed.number < f.nextSeq)
      && match React(f, total, events[0])
         case Abort => true
         case Continue(next, _) => AcksOnlySent(next, total, events[1..])
  }

  /** A session whose acknowledgments only name packets already sent keeps
      `0 <= base <= nextSeq <= total` and `nextSeq - base <= WINDOW_SIZE`. */
  lemma {:induction false} SessionKeepsOrdered(w: Window, total: nat, events: seq<Event>)
    requires Ordered(w, total) && AcksOnlySent(w, total, events)
    ensures Ordered(Session(w, total, events).final, total)
    decreases |events|
  {
    if w.base < total {
      var f := Fill(w, total);
      assert Ordered(f, total);
      if events != [] {
        match React(f, total, events[0])
        case Abort =>
        case Continue(next, _) =>
          assert Ordered(next, total);
          SessionKeepsOrdered(next, total, events[1..]);
      }
    }
  }

  /** Cutting the events short keeps every acknowledgment naming a sent
      packet. */
  lemma {:induction false} AcksOnlySentPrefix(w: Window, total: nat, events: seq<Event>, n: nat)
    requires AcksOnlySent(w, total, events) && n <= |events|
    ensures AcksOnlySent(w, total, events[..n])
    decreases n
  {
    if w.base < total && n > 0 {
      var f := Fill(w, total);
      assert events[..n][0] == events[0];
      match React(f, total, events[0])
      case Abort =>
      case Continue(next, _) =>
        assert events[..n][1..] == events[1..][..n - 1];
        AcksOnlySentPrefix(next, total, events[1..], n - 1);
    }
  }

  /** The order of the window holds after every event of such a session, not
      only at its end: after each prefix of the events. */
  lemma SessionKeepsOrderedThroughout(w: Window, total: nat, events: seq<Event>, n: nat)
    requires Ordered(w, total) && AcksOnlySent(w, total, events) && n <= |events|
    ensures Ordered(Session(w, total, events[..n]).final, total)
  {
    AcksOnlySentPrefix(w, total, events, n);
    SessionKeepsOrdered(w, total, events[..n]);
  }

  /** After the send loop the retransmission after a timeout is exactly the
      set of packets sent and not yet acknowledged, `base` to `nextSeq`. */
  lemma RetransmitsOutstanding(w: Window, total: nat)
    requires Bounded(w, total) && w.base <= w.nextSeq
    ensures Retransmission(Fill(w, total), total) == Range(w.base, Fill(w, total).nextSeq)
  {
  }

  /** An acknowledgment for a packet beyond the window moves `base` past
      `nextSeq`, and the next send loop puts more than `WINDOW_SIZE` packets
      on the wire at once: with 20 packets and 4 sent, an acknowledgment for
      packet 10 makes the sender send packets 4 to 14. */
  lemma AckBeyondWindowBurst()
    ensures var w := Acked(Window(0, 4), 10);
            w == Window(11, 4) && Range(w.nextSeq, Fill(w, 20).nextSeq) == Range(4, 15)
  {
  }

  /** The acknowledgments of a lossless, in-order receiver that acknowledges
      the last packet of each window it receives. */
  function LosslessAcks(from: nat, total: nat): seq<Event>
    requires total < U32_BOUND
    decreases total - from
  {
    if from >= total then []
    else
      var hi := Min(total, from + WINDOW_SIZE);
      [Datagram(AckDatagram(hi - 1))] + LosslessAcks(hi, total)
  }

  /** Over a lossless channel the sender puts every packet on the wire
      exactly once, in order, and completes. */
  lemma {:induction false} LosslessSessionSendsEachPacketOnce(from: nat, total: nat)
    requires from <= total < U32_BOUND
    ensures Session(Window(from, from), total, LosslessAcks(from, total))
            == Trace(Window(total, total), Range(from, total), Completed)
    decreases total - from
  {
    if from < total {
      var hi := Min(total, from + WINDOW_SIZE);
      LosslessWindow(from, total);
      LosslessSessionSendsEachPacketOnce(hi, total);
      RangeSplit(from, hi, total);
    }
  }

  /** One window of the lossless session: its packets go out, the
      acknowledgment of the last one slides the window past them. */
  lemma LosslessWindow(from: nat, total: nat)
    requires from < total < U32_BOUND
    ensures var hi := Min(total, from + WINDOW_SIZE);
            Session(Window(from, from), total, LosslessAcks(from, total))
            == Prepend(Range(from, hi), Session(Window(hi, hi), total, LosslessAcks(hi, total)))
  {
    var hi := Min(total, from + WINDOW_SIZE);
    var events := LosslessAcks(from, total);
    assert events[0] == Datagram(AckDatagram(hi - 1)) && events[1..] == LosslessAcks(hi, total);
    var w := Window(from, from);
    assert Fill(w, total) == Window(from, hi);
    AckOfWindowEnd(from, hi, total);
    SessionStep(w, total, events);
    assert Range(from, hi) + [] == Range(from, hi);
  }

  lemma AckOfWindowEnd(from: nat, hi: nat, total: nat)
    requires from < hi <= total < U32_BOUND
    ensures React(Window(from, hi), total, Datagram(AckDatagram(hi - 1))) == Continue(Window(hi, hi), [])
  {
    ParseAckDatagram(hi - 1, []);
    assert AckDatagram(hi - 1) + [] == AckDatagram(hi - 1);
  }

  /** The sender's state: the packets of the segment and the window over them. */
  class Sender {
    const packets: seq<seq<byte>>
    var base: nat
    var nextSeq: nat

    function State(): Window
      reads this
    {
      Window(base, nextSeq)
    }

    constructor (packets: seq<seq<byte>>)
      ensures this.packets == packets
      ensures State() == Window(0, 0)
    {
      this.packets := packets;
      base := 0;
      nextSeq := 0;
    }

    /** Sends the packets the window allows; returns their sequence numbers. */
    method FillWindow() returns (sent: seq<int>)
      modifies this
      ensures State() == Fill(old(State()), |packets|)
      ensures sent == Range(old(nextSeq), nextSeq)
    {
      sent := [];
      ghost var start := nextSeq;
      while nextSeq < |packets| && nextSeq < base + WINDOW_SIZE
        invariant base == old(base) && start <= nextSeq <= Fill(old(State()), |packets|).nextSeq
        invariant sent == Range(start, nextSeq)
        decreases |packets| - nextSeq
      {
        RangeSplit(start, nextSeq, nextSeq + 1);
        sent := sent + [nextSeq];
        nextSeq := nextSeq + 1;
      }
    }

    method OnAck(n: nat)
      modifies this
      ensures State() == Acked(old(State()), n)
    {
      if n >= base {
        base := n + 1;
      }
    }

    /** The timeout handler: resends from `base` to the end of the window and
        changes nothing. */
    method OnTimeout() returns (sent: seq<int>)
      ensures sent == Retransmission(State(), |packets|)
    {
      sent := [];
      var hi := Min(base + WINDOW_SIZE, |packets|);
      var seqNum := base;
      while seqNum < hi
        invariant seqNum == base || base <= seqNum <= hi
        invariant sent == Range(base, seqNum)
      {
        RangeSplit(base, seqNum, seqNum + 1);
        sent := sent + [seqNum];
        seqNum := seqNum + 1;
      }
    }

    /** One `recvfrom`: an acknowledgment slides the window, a timeout resends
        it, anything else is ignored; `abort` when `struct.unpack` raises. */
    method OnEvent(e: Event) returns (resent: seq<int>, abort: bool)
      modifies this
      ensures abort <==> React(old(State()), |packets|, e).Abort?
      ensures abort ==> State() == old(State())
      ensures !abort ==> State() == React(old(State()), |packets|, e).window
      ensures !abort ==> resent == React(old(State()), |packets|, e).resent
    {
      resent, abort := [], false;
      match e {
        case Timeout =>
          resent := OnTimeout();
        case Datagram(d) =>
          match ParseAck(d) {
            case NotAck =>
            case Truncated =>
              abort := true;
            case Ack(n) =>
              OnAck(n);
          }
      }
    }

    /** The outer loop of `send_file_gbn`: runs until `base` reaches
        `|packets|`, an acknowledgment cannot be unpacked, or the events run out.
        `wire` holds the datagrams sent, `sent` their sequence numbers. */
    method Serve(events: seq<Event>) returns (sent: seq<int>, wire: seq<seq<byte>>, outcome: Outcome)
      modifies this
      ensures Trace(State(), sent, outcome) == Session(old(State()), |packets|, events)
      ensures forall i :: 0 <= i < |sent| ==> 0 <= sent[i] < |packets|
      ensures |wire| == |sent| && forall i :: 0 <= i < |sent| ==> wire[i] == packets[sent[i]]
    {
      ghost var w0 := State();
      sent, wire := [], [];
      var i := 0;
      while base < |packets|
        invariant i <= |events|
        invariant Session(w0, |packets|, events) == Prepend(sent, Session(State(), |packets|, events[i..]))
        invariant SeqNumbersBelow(sent, |packets|) && wire == Send(sent)
        decreases |events| - i
      {
        ghost var w := State();
        ghost var rest := events[i..];
        var newly := FillWindow();
        if i == |events| {
          assert Session(w, |packets|, rest) == Trace(State(), newly, Waiting);
          PrependTwice(sent, newly, Trace(State(), [], Waiting));
          SendAppend(sent, newly);
          return sent + newly, wire + Send(newly), Waiting;
        }
        assert rest[0] == events[i] && rest[1..] == events[i + 1..];
        var resent, abort := OnEvent(events[i]);
        if abort {
          assert Session(w, |packets|, rest) == Trace(State(), newly, Aborted);
          PrependTwice(sent, newly, Trace(State(), [], Aborted));
          SendAppend(sent, newly);
          return sent + newly, wire + Send(newly), Aborted;
        }
        SessionStep(w, |packets|, rest);
        PrependTwice(sent, newly + resent, Session(State(), |packets|, events[i + 1..]));
        SendAppend(newly, resent);
        SendAppend(sent, newly + resent);
        sent, wire := sent + (newly + resent), wire + Send(newly + resent);
        i := i + 1;
      }
      outcome := Completed;
    }

    /** The datagrams for a list of sequence numbers. */
    function Send(seqs: seq<int>): (r: seq<seq<byte>>)
      requires SeqNumbersBelow(seqs, |packets|)
      ensures |r| == |seqs| && forall k :: 0 <= k < |seqs| ==> r[k] == packets[seqs[k]]
    {
      seq(|seqs|, k requires 0 <= k < |seqs| => packets[seqs[k]])
    }

    lemma SendAppend(a: seq<int>, b: seq<int>)
      requires SeqNumbersBelow(a, |packets|) && SeqNumbersBelow(b, |packets|)
      ensures SeqNumbersBelow(a + b, |packets|) && Send(a + b) == Send(a) + Send(b)
    {
    }
  }

  datatype TransferOutcome =
    | HeaderRefused         // `struct.pack` raised: nothing was sent
    | SeekRefused           // `f.seek` raised (negative offset, or one beyond `off_t`), after the header was sent
    | Served(outcome: Outcome)

  /** `send_file_gbn`: the header, then the Go-Back-N session over the packets
      of `file[offset .. offset + chunkSize]`. `datagrams` is everything sent,
      in order. */
  method SendFileGbn(file: seq<byte>, offset: int, chunkSize: int, events: seq<Event>)
    returns (datagrams: seq<seq<byte>>, outcome: TransferOutcome)
    ensures outcome == HeaderRefused <==> EncodeHeader(chunkSize, TotalPackets(chunkSize)).None?
    ensures outcome == HeaderRefused ==> datagrams == []
    ensures outcome != HeaderRefused ==>
              0 <= chunkSize && TotalPackets(chunkSize) < U32_BOUND
              && datagrams != [] && Some(datagrams[0]) == EncodeHeader(chunkSize, TotalPackets(chunkSize))
    ensures outcome == SeekRefused <==> outcome != HeaderRefused && !SeekAccepts(offset)
    ensures outcome == SeekRefused ==> |datagrams| == 1
    ensures outcome.Served? ==>
              var t := Session(Window(0, 0), TotalPackets(chunkSize), events);
              && SeekAccepts(offset) && outcome.outcome == t.outcome && |datagrams| == 1 + |t.sent|
              && forall k :: 0 <= k < |t.sent| ==>
                   datagrams[1 + k] == DataPacket(t.sent[k], AsWrittenPayload(file, offset, t.sent[k]))
  {
    var total := TotalPackets(chunkSize);
    var header := EncodeHeader(chunkSize, total);
    if header.None? {
      return [], HeaderRefused;
    }
    HeaderBounds(chunkSize);
    datagrams := [header.value];
    if !SeekAccepts(offset) {
      return datagrams, SeekRefused;
    }
    var wire, served := ServeSegment(file, offset, chunkSize, events);
    datagrams := datagrams + wire;
    outcome := Served(served);
  }

  /** The part of `send_file_gbn` after the header: slice the segment into
      packets and run the session over them. */
  method ServeSegment(file: seq<byte>, offset: nat, chunkSize: nat, events: seq<Event>)
    returns (wire: seq<seq<byte>>, outcome: Outcome)
    requires TotalPackets(chunkSize) < U32_BOUND
    ensures var t := Session(Window(0, 0), TotalPackets(chunkSize), events);
            && outcome == t.outcome && |wire| == |t.sent|
            && forall k :: 0 <= k < |t.sent| ==>
                 wire[k] == DataPacket(t.sent[k], AsWrittenPayload(file, offset, t.sent[k]))
  {
    var packets := SlicePackets(file, offset, chunkSize);
    var sender := new Sender(packets);
    var sent;
    sent, wire, outcome := sender.Serve(events);
    ghost var t := Session(Window(0, 0), TotalPackets(chunkSize), events);
    assert sent == t.sent && outcome == t.outcome;
    forall k | 0 <= k < |sent|
      ensures wire[k] == DataPacket(sent[k], AsWrittenPayload(file, offset, sent[k]))
    {
      assert wire[k] == packets[sent[k]];
    }
  }
}
