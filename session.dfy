/** A whole transfer over a loss-free channel: the server's request loop and
    send_file on one side, receive_file on the other, each seeing exactly the
    datagrams the other sends. */
module Session {
  import opened Wire
  import opened Net
  import opened Sender
  import Receiver
  import opened Dispatcher

  /** The ACKs the receiver sends, delivered to the sender, are the ACK script. */
  lemma AcksDelivered(n: nat, server: Addr, client: Addr)
    requires n <= SeqLimit
    ensures Deliver(AckLog(n, server), client) == AckScript(n, client)
  {
  }

  /** Stop-and-wait delivers the file intact: when send_file's packets all
      reach receive_file and its ACKs all reach send_file, the sender reports
      success, the receiver completes with exactly the file's bytes, and the
      ACKs the receiver sends are exactly the ones the sender consumed. */
  lemma LossFreeTransfer(file: seq<byte>, chunkSize: nat, filename: seq<byte>, server: Addr, client: Addr)
    requires chunkSize > 0 && |Payloads(file, chunkSize)| <= SeqLimit
    ensures var ps := Payloads(file, chunkSize);
      var acks := AckScript(|ps|, client);
      var sender := Transfer(ps, client, acks, 0, 0);
      var receiver := Receiver.Run(server, Deliver(sender.sent, server), 0, Receiver.Start(filename, server));
      sender.outcome == Delivered && sender.used == |acks| &&
      receiver.status == Receiver.Complete && receiver.output == file &&
      receiver.sent == [Send(filename, server)] + AckLog(|ps|, server) &&
      Deliver(receiver.sent[1..], client) == acks
  {
    var ps := Payloads(file, chunkSize);
    PayloadsShape(file, chunkSize);
    var acks := AckScript(|ps|, client);
    assert acks[0..] == acks;
    LossFreeSender(ps, client, client, acks, 0);
    Receiver.LossFreeReceiver(filename, server, client, ps);
    var receiver := Receiver.Run(server, Deliver(FrameLog(ps, client), server), 0, Receiver.Start(filename, server));
    assert receiver.sent[1..] == AckLog(|ps|, server);
    AcksDelivered(|ps|, server, client);
  }

  /** The request loop around a loss-free transfer: a request for `name`
      from `client`, then the ACKs of every packet, then anything else. The
      server sends each packet of the file once, in order, and carries on
      with what follows, its receive timeout left set unless it `resets` it. */
  lemma LossFreeRequest(name: seq<byte>, file: seq<byte>, chunkSize: nat, client: Addr, later: seq<Event>, resets: bool)
    requires chunkSize > 0 && |Payloads(file, chunkSize)| <= SeqLimit && name != Ping
    ensures var ps := Payloads(file, chunkSize);
      var inbound := [Datagram(name, client)] + AckScript(|ps|, client);
      var events := inbound + later;
      Serve(name, file, chunkSize, events, 0, false, resets)
        == Then(FrameLog(ps, client), Serve(name, file, chunkSize, events, |inbound|, !resets, resets))
  {
    var ps := Payloads(file, chunkSize);
    var acks := AckScript(|ps|, client);
    var inbound := [Datagram(name, client)] + acks;
    var events := inbound + later;
    assert events[1..1 + |ps|] == acks;
    LossFreeSender(ps, client, client, events, 1);
  }

  /** The same closed loop through the server's request loop: a client at
      `client` whose request for `name` and whose ACKs all reach the server
      receives the file intact, and the datagrams the server receives are
      exactly what the client sent. As written, the server then stops: the
      timeout send_file set is still in force and nothing more arrives. */
  lemma LossFreeSession(name: seq<byte>, file: seq<byte>, chunkSize: nat, server: Addr, client: Addr)
    requires chunkSize > 0 && |Payloads(file, chunkSize)| <= SeqLimit && name != Ping
    ensures var ps := Payloads(file, chunkSize);
      var inbound := [Datagram(name, client)] + AckScript(|ps|, client);
      var served := Serve(name, file, chunkSize, inbound, 0, false, false);
      var receiver := Receiver.Run(server, Deliver(served.sent, server), 0, Receiver.Start(name, server));
      served.stopped && served.sent == FrameLog(ps, client) &&
      receiver.status == Receiver.Complete && receiver.output == file &&
      Deliver(receiver.sent, client) == inbound
  {
    var ps := Payloads(file, chunkSize);
    PayloadsShape(file, chunkSize);
    var inbound := [Datagram(name, client)] + AckScript(|ps|, client);
    LossFreeRequest(name, file, chunkSize, client, [], false);
    assert inbound + [] == inbound;
    assert FrameLog(ps, client) + [] == FrameLog(ps, client);
    Receiver.LossFreeReceiver(name, server, client, ps);
    DeliverAppend([Send(name, server)], AckLog(|ps|, server), client);
    AcksDelivered(|ps|, server, client);
  }

  /** As written, a server left idle after a transfer stops: a ping that
      arrives after one receive timeout is never answered. */
  lemma IdleAfterTransferStops(name: seq<byte>, file: seq<byte>, chunkSize: nat, client: Addr, other: Addr)
    requires chunkSize > 0 && |Payloads(file, chunkSize)| <= SeqLimit && name != Ping
    ensures var ps := Payloads(file, chunkSize);
      var events := [Datagram(name, client)] + AckScript(|ps|, client) + [Timeout, Datagram(Ping, other)];
      Serve(name, file, chunkSize, events, 0, false, false) == Served(FrameLog(ps, client), true)
  {
    var ps := Payloads(file, chunkSize);
    LossFreeRequest(name, file, chunkSize, client, [Timeout, Datagram(Ping, other)], false);
    assert FrameLog(ps, client) + [] == FrameLog(ps, client);
  }

  /** With the timeout cleared after each transfer, the server keeps serving
      after a session: an idle period is no event, and a later ping is
      answered with a pong, the server still running. */
  lemma ResettingServerKeepsServing(name: seq<byte>, file: seq<byte>, chunkSize: nat, client: Addr, other: Addr)
    requires chunkSize > 0 && |Payloads(file, chunkSize)| <= SeqLimit && name != Ping
    ensures var ps := Payloads(file, chunkSize);
      var events := [Datagram(name, client)] + AckScript(|ps|, client) + [Timeout, Datagram(Ping, other)];
      Serve(name, file, chunkSize, events, 0, false, true) == Served(FrameLog(ps, client) + [Send(Pong, other)], false)
  {
    var ps := Payloads(file, chunkSize);
    var inbound := [Datagram(name, client)] + AckScript(|ps|, client);
    var events := inbound + [Timeout, Datagram(Ping, other)];
    LossFreeRequest(name, file, chunkSize, client, [Timeout, Datagram(Ping, other)], true);
    assert events[|inbound|] == Timeout && events[|inbound| + 1] == Datagram(Ping, other);
    assert Serve(name, file, chunkSize, events, |inbound| + 1, false, true) == Served([Send(Pong, other)], false);
  }

  /** An empty file travels as a single empty EOF packet with sequence number
      0, and the receiver ends with an empty file; the server, as written,
      then stops. */
  lemma EmptyFileSession(name: seq<byte>, chunkSize: nat, server: Addr, client: Addr)
    requires chunkSize > 0 && name != Ping
    ensures var served := Serve(name, [], chunkSize, [Datagram(name, client), Datagram(AckFor(0), client)], 0, false, false);
      served == Served([Send(MakePacket(0, [], true).value, client)], true) &&
      Receiver.Run(server, Deliver(served.sent, server), 0, Receiver.Start(name, server)).output == []
  {
    LossFreeSession(name, [], chunkSize, server, client);
    assert Payloads([], chunkSize) == [[]];
    assert AckScript(1, client) == [Datagram(AckFor(0), client)];
    assert FrameLog([[]], client) == [Send(MakePacket(0, [], true).value, client)];
  }
}
