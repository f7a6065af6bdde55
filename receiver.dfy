/** The receiving side of the transfer (receive_file): send the file name to
    the server, then accept packets strictly in sequence-number order, append
    their payloads to the destination, acknowledge each accepted packet, answer
    anything else from the server with an ACK of the last accepted number, and
    stop after accepting the EOF packet. */
module Receiver {
  import opened Wire
  import opened Net

  /** Where receive_file is: still receiving; finished after the EOF packet;
      ended by a receive timeout (the client exits with status 1); or ended by
      struct.pack rejecting the re-ACK of sequence number -1. */
  datatype Status = Receiving | Complete | TimedOut | AckOverflow

  /** The receiver's state: its status, expected_seq, the bytes written to the
      destination, the datagrams sent so far, and (for the proofs) the packets
      accepted so far, in order. */
  datatype State = State(status: Status, expected: nat, output: seq<byte>, sent: seq<Outbound>, accepted: seq<Packet>)

  /** The state after the request: the file name has gone to the server and
      packet 0 is expected. */
  function Start(filename: seq<byte>, server: Addr): State
  {
    State(Receiving, 0, [], [Send(filename, server)], [])
  }

  /** One pass of the receive loop on the event e: the destination and the
      outbound log are only appended to, at most one datagram is sent, and
      expected_seq advances by at most one. */
  function Step(server: Addr, s: State, e: Event): (t: State)
    requires s.status == Receiving
    ensures s.output <= t.output && s.sent <= t.sent && |t.sent| <= |s.sent| + 1
    ensures s.expected <= t.expected <= s.expected + 1
  {
    match e
    case Timeout => s.(status := TimedOut)
    case Datagram(data, from) =>
      if from != server || |data| < HeaderSize then s
      else
        var p := ParsePacket(data).value;
        if p.seqNum == s.expected then
          s.(status := if p.eof then Complete else Receiving,
             expected := s.expected + 1,
             output := s.output + p.payload,
             sent := s.sent + [Send(EncodeAck(p.seqNum).value, from)],
             accepted := s.accepted + [p])
        else
          match EncodeAck(s.expected - 1)
          case None => s.(status := AckOverflow)
          case Some(ack) => s.(sent := s.sent + [Send(ack, from)])
  }

  /** The receive loop from state s, with the script read up to i, until it stops. */
  function Run(server: Addr, events: seq<Event>, i: nat, s: State): (t: State)
    requires i <= |events|
    ensures t.status != Receiving
    decreases |events| - i, if s.status == Receiving then 1 else 0
  {
    if s.status != Receiving then s
    else
      var got := Receive(events, i);
      Run(server, events, got.next, Step(server, s, got.event))
  }

  /** receive_file over the scripted channel: returns how it ended, the bytes
      written to the destination and every datagram sent (the request first). */
  method ReceiveFile(filename: seq<byte>, server: Addr, events: seq<Event>)
    returns (status: Status, output: seq<byte>, sent: seq<Outbound>)
    ensures var t := Run(server, events, 0, Start(filename, server));
      status == t.status && output == t.output && sent == t.sent
  {
    sent := [Send(filename, server)];
    var expected := 0;
    output, status := [], Receiving;
    var i := 0;
    ghost var accepted: seq<Packet> := [];
    while status == Receiving
      invariant i <= |events|
      invariant Run(server, events, 0, Start(filename, server))
        == Run(server, events, i, State(status, expected, output, sent, accepted))
      decreases |events| - i, if status == Receiving then 1 else 0
    {
      ghost var s := State(status, expected, output, sent, accepted);
      var got := Receive(events, i);
      i := got.next;
      match got.event {
        case Timeout =>
          status := TimedOut;
        case Datagram(data, from) =>
          if from != server {
            // a datagram from an unknown sender is ignored
          } else if |data| < HeaderSize {
            // a datagram too short for a header is ignored
          } else {
            var seqNum := Unpack32(data[..4]);
            var eof := data[4] != 0;
            var payload := data[HeaderSize..];
            if seqNum == expected {
              if payload != [] {
                output := output + payload;
              }
              sent := sent + [Send(EncodeAck(seqNum).value, from)];
              expected := expected + 1;
              accepted := accepted + [Packet(seqNum, eof, payload)];
              if eof {
                status := Complete;
              }
            } else {
              match EncodeAck(expected - 1) {
                case None => status := AckOverflow;
                case Some(ack) => sent := sent + [Send(ack, from)];
              }
            }
          }
      }
      assert State(status, expected, output, sent, accepted) == Step(server, s, got.event);
    }
  }

  // ---- Properties of the specification ----

  /** The payloads of a list of packets. */
  function PayloadsOf(ps: seq<Packet>): seq<seq<byte>>
  {
    seq(|ps|, j requires 0 <= j < |ps| => ps[j].payload)
  }

  /** The receiver's invariant: expected_seq counts the accepted packets, which
      carry the numbers 0, 1, 2, ... in order; the destination holds exactly
      their payloads, in that order; only the last of them may be the EOF
      packet, and it is exactly when the receiver has completed. */
  ghost predicate Inv(s: State)
  {
    s.expected == |s.accepted| <= SeqLimit &&
    s.output == Concat(PayloadsOf(s.accepted)) &&
    (forall j :: 0 <= j < |s.accepted| ==> s.accepted[j].seqNum == j) &&
    (forall j :: 0 <= j < |s.accepted| - 1 ==> !s.accepted[j].eof) &&
    (s.status == Complete <==> (|s.accepted| > 0 && s.accepted[|s.accepted| - 1].eof)) &&
    (s.status == AckOverflow ==> s.expected == 0)
  }

  lemma StartInv(filename: seq<byte>, server: Addr)
    ensures Inv(Start(filename, server))
  {
    assert Concat(PayloadsOf([])) == [];
  }

  /** One pass of the loop keeps the invariant, and only ever appends to the
      destination, to the outbound log and to the accepted packets. */
  lemma StepInv(server: Addr, s: State, e: Event)
    requires Inv(s) && s.status == Receiving
    ensures var t := Step(server, s, e);
      Inv(t) && s.output <= t.output && s.sent <= t.sent && s.accepted <= t.accepted
  {
    var t := Step(server, s, e);
    if e.Datagram? && e.from == server && |e.data| >= HeaderSize {
      var p := ParsePacket(e.data).value;
      if p.seqNum == s.expected {
        assert PayloadsOf(t.accepted) == PayloadsOf(s.accepted) + [p.payload];
        ConcatAppend(PayloadsOf(s.accepted), p.payload);
      }
    }
  }

  lemma {:induction false} RunInv(server: Addr, events: seq<Event>, i: nat, s: State)
    requires i <= |events| && Inv(s)
    ensures var t := Run(server, events, i, s);
      Inv(t) && s.output <= t.output && s.sent <= t.sent && s.accepted <= t.accepted
    decreases |events| - i, if s.status == Receiving then 1 else 0
  {
    if s.status == Receiving {
      var got := Receive(events, i);
      var s' := Step(server, s, got.event);
      StepInv(server, s, got.event);
      RunInv(server, events, got.next, s');
    }
  }

  /** What receive_file guarantees whatever the channel does: its first
      datagram is the request for the file; the destination is the in-order
      concatenation of the accepted payloads, numbered 0, 1, 2, ... (so a
      re-delivered packet is never written twice); and it completes exactly
      when it has accepted an EOF packet, which is the last packet accepted. */
  lemma ReceiveFileGuarantees(filename: seq<byte>, server: Addr, events: seq<Event>)
    ensures var t := Run(server, events, 0, Start(filename, server));
      |t.sent| > 0 && t.sent[0] == Send(filename, server) &&
      t.expected == |t.accepted| &&
      t.output == Concat(PayloadsOf(t.accepted)) &&
      (forall j :: 0 <= j < |t.accepted| ==> t.accepted[j].seqNum == j) &&
      (t.status == Complete <==> (|t.accepted| > 0 && t.accepted[|t.accepted| - 1].eof))
  {
    StartInv(filename, server);
    RunInv(server, events, 0, Start(filename, server));
  }

  /** A datagram from another address, or one shorter than a header, changes nothing. */
  lemma IgnoredDatagram(server: Addr, s: State, data: seq<byte>, from: Addr)
    requires s.status == Receiving && (from != server || |data| < HeaderSize)
    ensures Step(server, s, Datagram(data, from)) == s
  {
  }

  /** A packet from the server that is not the expected one (a duplicate of
      an accepted packet, or one from the future) writes nothing and does not
      advance: its only effect is an ACK of expected_seq - 1, and before any
      packet was accepted that ACK cannot be packed and ends the receiver. */
  lemma {:induction false} UnexpectedPacket(server: Addr, s: State, data: seq<byte>)
    requires Inv(s) && s.status == Receiving && |data| >= HeaderSize
    requires ParsePacket(data).value.seqNum != s.expected
    ensures var t := Step(server, s, Datagram(data, server));
      t.expected == s.expected && t.output == s.output && t.accepted == s.accepted &&
      (s.expected == 0 ==> t.status == AckOverflow && t.sent == s.sent) &&
      (s.expected > 0 ==> t.status == Receiving && t.sent == s.sent + [Send(AckFor(s.expected - 1), server)])
  {
  }

  /** A packet from the server carrying the expected sequence number, in any
      receiving state: its payload is appended to the destination, it is
      acknowledged with its own number, expected_seq advances by one, and the
      receiver completes exactly when its flag byte is non-zero. */
  lemma ExpectedPacket(server: Addr, s: State, data: seq<byte>)
    requires s.status == Receiving && |data| >= HeaderSize && Pack32(s.expected) == Some(data[..4])
    ensures var t := Step(server, s, Datagram(data, server));
      t.expected == s.expected + 1 && t.output == s.output + data[HeaderSize..] &&
      t.sent == s.sent + [Send(AckFor(s.expected), server)] &&
      (t.status == Complete <==> data[4] != 0) && (t.status == Receiving <==> data[4] == 0)
  {
    PackUnpack(data[..4]);
  }

  /** Re-delivering any packet the receiver already accepted is idempotent:
      the destination and expected_seq stay as they are, and the receiver
      re-acknowledges the last packet it accepted. */
  lemma RedeliveryIsIdempotent(server: Addr, s: State, j: nat)
    requires Inv(s) && s.status == Receiving && j < |s.accepted|
    ensures var p := s.accepted[j];
      var t := Step(server, s, Datagram(MakePacket(p.seqNum, p.payload, p.eof).value, server));
      t.output == s.output && t.expected == s.expected && t.accepted == s.accepted &&
      t.sent == s.sent + [Send(AckFor(s.expected - 1), server)]
  {
    var p := s.accepted[j];
    ParseMakePacket(p.seqNum, p.payload, p.eof);
    UnexpectedPacket(server, s, MakePacket(p.seqNum, p.payload, p.eof).value);
  }

  /** The packets of a transfer of `payloads` as the receiver accepts them. */
  function PacketsOf(payloads: seq<seq<byte>>): seq<Packet>
  {
    seq(|payloads|, k requires 0 <= k < |payloads| => Packet(k, k == |payloads| - 1, payloads[k]))
  }

  /** The state after accepting the first k packets of a loss-free transfer. */
  function Accepted(filename: seq<byte>, server: Addr, payloads: seq<seq<byte>>, k: nat): State
    requires k <= |payloads| <= SeqLimit
  {
    State(if k == |payloads| then Complete else Receiving, k, Concat(payloads[..k]),
          [Send(filename, server)] + AckLog(k, server), PacketsOf(payloads)[..k])
  }

  /** Accepting packet k of a loss-free transfer moves to the next state of the sequence. */
  lemma AcceptNext(filename: seq<byte>, server: Addr, payloads: seq<seq<byte>>, k: nat)
    requires k < |payloads| <= SeqLimit
    ensures Step(server, Accepted(filename, server, payloads, k), Datagram(Frame(payloads, k), server))
      == Accepted(filename, server, payloads, k + 1)
  {
    ParseMakePacket(k, payloads[k], k == |payloads| - 1);
    assert payloads[..k + 1] == payloads[..k] + [payloads[k]];
    ConcatAppend(payloads[..k], payloads[k]);
    assert AckLog(k + 1, server) == AckLog(k, server) + [Send(AckFor(k), server)];
    assert PacketsOf(payloads)[..k + 1] == PacketsOf(payloads)[..k] + [PacketsOf(payloads)[k]];
  }

  lemma {:induction false} LossFreeFrom(filename: seq<byte>, server: Addr, client: Addr, payloads: seq<seq<byte>>, k: nat)
    requires k < |payloads| <= SeqLimit
    ensures var n := |payloads|;
      Run(server, Deliver(FrameLog(payloads, client), server), k, Accepted(filename, server, payloads, k))
        == Accepted(filename, server, payloads, n)
    decreases |payloads| - k
  {
    var events := Deliver(FrameLog(payloads, client), server);
    assert events[k] == Datagram(Frame(payloads, k), server);
    AcceptNext(filename, server, payloads, k);
    if k + 1 < |payloads| {
      LossFreeFrom(filename, server, client, payloads, k + 1);
    }
  }

  /** On a loss-free channel that delivers every packet of a transfer once, in
      order, the receiver accepts them all, writes exactly the concatenation of
      their payloads, acknowledges each once in order, and completes. */
  lemma LossFreeReceiver(filename: seq<byte>, server: Addr, client: Addr, payloads: seq<seq<byte>>)
    requires 0 < |payloads| <= SeqLimit
    ensures var n := |payloads|;
      Run(server, Deliver(FrameLog(payloads, client), server), 0, Start(filename, server))
        == State(Complete, n, Concat(payloads), [Send(filename, server)] + AckLog(n, server), PacketsOf(payloads))
  {
    assert Accepted(filename, server, payloads, 0) == Start(filename, server);
    LossFreeFrom(filename, server, client, payloads, 0);
    assert payloads[..|payloads|] == payloads;
    assert PacketsOf(payloads)[..|payloads|] == PacketsOf(payloads);
  }
}
