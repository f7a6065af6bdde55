/** The server's request loop (the body of main after bind): answer "ping"
    with "pong", serve the one file whose name is requested by running
    send_file for the requester, and ignore any other request. */
module Dispatcher {
  import opened Wire
  import opened Net
  import opened Sender

  /** The liveness probe, the bytes of "ping". */
  const Ping: seq<byte> := [0x70, 0x69, 0x6E, 0x67]

  /** The liveness answer, the bytes of "pong". */
  const Pong: seq<byte> := [0x70, 0x6F, 0x6E, 0x67]

  /** What the request loop did with a script: the datagrams it sent, and
      whether an exception ended the server (struct.pack rejecting a sequence
      number inside send_file, or a timeout of the dispatcher's own receive). */
  datatype Served = Served(sent: seq<Outbound>, stopped: bool)

  /** A result preceded by datagrams already sent. */
  function Then(prefix: seq<Outbound>, r: Served): Served
  {
    Served(prefix + r.sent, r.stopped)
  }

  /** The request loop over `events` from the i-th on. `armed` records that
      send_file has set the socket's timeout: until then the loop's receive
      blocks, so a Timeout is no event at all and a used-up script leaves the
      server waiting; afterwards a timeout, or a script with nothing more to
      deliver, escapes main and stops the server. `resets` says whether the
      timeout is cleared again after each transfer: the code as written never
      clears it (`resets` false); the loop that keeps serving needs it cleared. */
  function Serve(name: seq<byte>, file: seq<byte>, chunkSize: nat, events: seq<Event>, i: nat, armed: bool, resets: bool): (r: Served)
    requires chunkSize > 0 && i <= |events|
    ensures r.stopped ==> armed || exists j :: i <= j < |events| && events[j].Datagram? && events[j].data == name
    decreases |events| - i
  {
    if i == |events| then Served([], armed)
    else
      match events[i]
      case Timeout =>
        if armed then Served([], true) else Serve(name, file, chunkSize, events, i + 1, armed, resets)
      case Datagram(data, from) =>
        if data == Ping then Then([Send(Pong, from)], Serve(name, file, chunkSize, events, i + 1, armed, resets))
        else if data == name then
          var run := Transfer(Payloads(file, chunkSize), from, events, 0, i + 1);
          if run.outcome == SeqOverflow then Served(run.sent, true)
          else Then(run.sent, Serve(name, file, chunkSize, events, run.used, !resets, resets))
        else Serve(name, file, chunkSize, events, i + 1, armed, resets)
  }

  /** The request loop of main, serving `file` under `name`, over the scripted
      channel `events` until the script ends or an exception stops it. */
  method ServeRequests(name: seq<byte>, file: seq<byte>, chunkSize: nat, events: seq<Event>)
    returns (sent: seq<Outbound>, stopped: bool)
    requires chunkSize > 0
    ensures Served(sent, stopped) == Serve(name, file, chunkSize, events, 0, false, false)
  {
    sent, stopped := [], false;
    var armed := false;
    var i := 0;
    while i < |events| && !stopped
      invariant i <= |events|
      invariant !stopped ==>
        Serve(name, file, chunkSize, events, 0, false, false) == Then(sent, Serve(name, file, chunkSize, events, i, armed, false))
      invariant stopped ==> Serve(name, file, chunkSize, events, 0, false, false) == Served(sent, true)
      decreases |events| - i, if stopped then 0 else 1
    {
      match events[i] {
        case Timeout =>
          if armed {
            stopped := true;
          } else {
            i := i + 1;
          }
        case Datagram(data, from) =>
          if data == Ping {
            ThenThen(sent, [Send(Pong, from)], Serve(name, file, chunkSize, events, i + 1, armed, false));
            sent := sent + [Send(Pong, from)];
            i := i + 1;
          } else if data == name {
            var outcome, out, used := SendFile(file, chunkSize, from, events, i + 1);
            if outcome == SeqOverflow {
              stopped := true;
            } else {
              ThenThen(sent, out, Serve(name, file, chunkSize, events, used, true, false));
              i := used;
            }
            armed := true;
            sent := sent + out;
          } else {
            i := i + 1;
          }
      }
    }
    if !stopped {
      // the script has nothing more: an armed receive times out
      stopped := armed;
    }
  }

  lemma ThenThen(a: seq<Outbound>, b: seq<Outbound>, r: Served)
    ensures Then(a, Then(b, r)) == Then(a + b, r)
  {
    assert a + (b + r.sent) == (a + b) + r.sent;
  }

  /** Whether datagram `o` answers something the server received from index
      `i` on: a "pong" to an address that sent "ping", or a packet of the
      served file to an address that requested it by name. */
  ghost predicate Answers(name: seq<byte>, file: seq<byte>, chunkSize: nat, events: seq<Event>, i: nat, o: Outbound)
    requires chunkSize > 0
  {
    var ps := Payloads(file, chunkSize);
    (o.data == Pong && exists j :: i <= j < |events| && events[j] == Datagram(Ping, o.to)) ||
    ((exists j :: i <= j < |events| && events[j] == Datagram(name, o.to)) &&
     exists k :: 0 <= k < |ps| && k < SeqLimit && o.data == Frame(ps, k))
  }

  lemma AnswersEarlier(name: seq<byte>, file: seq<byte>, chunkSize: nat, events: seq<Event>, i: nat, i2: nat, o: Outbound)
    requires chunkSize > 0 && i <= i2 && Answers(name, file, chunkSize, events, i2, o)
    ensures Answers(name, file, chunkSize, events, i, o)
  {
  }

  /** The server never sends unsolicited datagrams: every datagram it sends is
      a "pong" to a pinger or a packet of the served file to a requester. */
  lemma {:induction false} ServeAnswersOnlyRequests(name: seq<byte>, file: seq<byte>, chunkSize: nat, events: seq<Event>, i: nat, armed: bool, resets: bool)
    requires chunkSize > 0 && i <= |events|
    ensures forall o :: o in Serve(name, file, chunkSize, events, i, armed, resets).sent ==> Answers(name, file, chunkSize, events, i, o)
    decreases |events| - i
  {
    if i < |events| {
      match events[i]
      case Timeout =>
        if !armed {
          ServeAnswersOnlyRequests(name, file, chunkSize, events, i + 1, armed, resets);
          forall o | o in Serve(name, file, chunkSize, events, i + 1, armed, resets).sent
            ensures Answers(name, file, chunkSize, events, i, o)
          {
            AnswersEarlier(name, file, chunkSize, events, i, i + 1, o);
          }
        }
      case Datagram(data, from) =>
        if data == Ping {
          var rest := Serve(name, file, chunkSize, events, i + 1, armed, resets);
          ServeAnswersOnlyRequests(name, file, chunkSize, events, i + 1, armed, resets);
          forall o | o in [Send(Pong, from)] + rest.sent
            ensures Answers(name, file, chunkSize, events, i, o)
          {
            if o in rest.sent {
              AnswersEarlier(name, file, chunkSize, events, i, i + 1, o);
            }
          }
        } else if data == name {
          var ps := Payloads(file, chunkSize);
          var run := Transfer(ps, from, events, 0, i + 1);
          TransferSendsInOrder(ps, from, events, 0, i + 1);
          forall o | o in run.sent
            ensures Answers(name, file, chunkSize, events, i, o)
          {
            var j :| 0 <= j < |run.sent| && run.sent[j] == o;
            assert o.data == Frame(ps, SeqOf(o)) && o.to == from;
          }
          if run.outcome != SeqOverflow {
            var rest := Serve(name, file, chunkSize, events, run.used, !resets, resets);
            ServeAnswersOnlyRequests(name, file, chunkSize, events, run.used, !resets, resets);
            forall o | o in rest.sent
              ensures Answers(name, file, chunkSize, events, i, o)
            {
              AnswersEarlier(name, file, chunkSize, events, i, run.used, o);
            }
          }
        } else {
          ServeAnswersOnlyRequests(name, file, chunkSize, events, i + 1, armed, resets);
          forall o | o in Serve(name, file, chunkSize, events, i + 1, armed, resets).sent
            ensures Answers(name, file, chunkSize, events, i, o)
          {
            AnswersEarlier(name, file, chunkSize, events, i, i + 1, o);
          }
        }
    }
  }

  /** A server that only receives "ping" answers each one with exactly one
      "pong" to its sender, in arrival order; once the pings stop it keeps
      waiting, unless a transfer has armed the timeout, which then stops it. */
  lemma {:induction false} PingsAnswered(name: seq<byte>, file: seq<byte>, chunkSize: nat, events: seq<Event>, i: nat, armed: bool, resets: bool)
    requires chunkSize > 0 && i <= |events|
    requires forall j :: i <= j < |events| ==> events[j].Datagram? && events[j].data == Ping
    ensures var r := Serve(name, file, chunkSize, events, i, armed, resets);
      r.stopped == armed && |r.sent| == |events| - i &&
      forall j :: i <= j < |events| ==> r.sent[j - i] == Send(Pong, events[j].from)
    decreases |events| - i
  {
    if i < |events| {
      PingsAnswered(name, file, chunkSize, events, i + 1, armed, resets);
      var rest := Serve(name, file, chunkSize, events, i + 1, armed, resets);
      forall j | i < j < |events|
        ensures ([Send(Pong, events[i].from)] + rest.sent)[j - i] == Send(Pong, events[j].from)
      {
        assert ([Send(Pong, events[i].from)] + rest.sent)[j - i] == rest.sent[j - (i + 1)];
      }
    }
  }

  /** Requests for any other name are dropped: until a transfer has run,
      datagrams that are neither "ping" nor the served name (and timeouts of
      the still-blocking receive) produce no datagram and do not stop the server. */
  lemma {:induction false} StrangersIgnored(name: seq<byte>, file: seq<byte>, chunkSize: nat, events: seq<Event>, i: nat, resets: bool)
    requires chunkSize > 0 && i <= |events|
    requires forall j :: i <= j < |events| ==>
      events[j].Timeout? || (events[j].data != Ping && events[j].data != name)
    ensures Serve(name, file, chunkSize, events, i, false, resets) == Served([], false)
    decreases |events| - i
  {
    if i < |events| {
      StrangersIgnored(name, file, chunkSize, events, i + 1, resets);
    }
  }
}
