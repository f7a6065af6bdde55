/** The sending side of the transfer (send_file): read the source in chunks of
    `chunkSize` bytes (BUFFER_SIZE minus the header), frame each chunk with the
    next sequence number, finish with an empty EOF-flagged packet, and for every
    packet retransmit until its exact ACK arrives or MaxRetries timeouts pass. */
module Sender {
  import opened Wire
  import opened Net

  /** MAX_RETRIES: the number of timeouts tolerated for one packet. */
  const MaxRetries: nat := 5

  /** The successive non-empty results of reading `file` `chunkSize` bytes at a time. */
  function Chunks(file: seq<byte>, chunkSize: nat): seq<seq<byte>>
    requires chunkSize > 0
    decreases |file|
  {
    if file == [] then []
    else if |file| <= chunkSize then [file]
    else [file[..chunkSize]] + Chunks(file[chunkSize..], chunkSize)
  }

  /** The payloads of a transfer, in sequence-number order: the chunks, then the
      empty payload of the EOF packet. */
  function Payloads(file: seq<byte>, chunkSize: nat): seq<seq<byte>>
    requires chunkSize > 0
  {
    Chunks(file, chunkSize) + [[]]
  }

  /** The chunks cover the file exactly, and each holds 1 to chunkSize bytes. */
  lemma {:induction false} ChunksShape(file: seq<byte>, chunkSize: nat)
    requires chunkSize > 0
    ensures Concat(Chunks(file, chunkSize)) == file
    ensures forall j :: 0 <= j < |Chunks(file, chunkSize)| ==> 1 <= |Chunks(file, chunkSize)[j]| <= chunkSize
    ensures |Chunks(file, chunkSize)| <= |file|
    decreases |file|
  {
    if file == [] {
    } else if |file| <= chunkSize {
      assert Concat([file]) == file + Concat([]);
    } else {
      var rest := Chunks(file[chunkSize..], chunkSize);
      ChunksShape(file[chunkSize..], chunkSize);
      assert ([file[..chunkSize]] + rest)[1..] == rest;
      assert file == file[..chunkSize] + file[chunkSize..];
    }
  }

  /** Every data packet carries 1 to chunkSize bytes, the last packet (and only
      it) carries none, and the payloads in order spell out the file. */
  lemma PayloadsShape(file: seq<byte>, chunkSize: nat)
    requires chunkSize > 0
    ensures var ps := Payloads(file, chunkSize);
      Concat(ps) == file && ps[|ps| - 1] == [] && |ps| <= |file| + 1 &&
      forall j :: 0 <= j < |ps| - 1 ==> 1 <= |ps[j]| <= chunkSize
  {
    var cs := Chunks(file, chunkSize);
    ChunksShape(file, chunkSize);
    ConcatAppend(cs, []);
    assert cs + [[]] == Payloads(file, chunkSize);
  }

  /** What each packet of a transfer carries: packet k decodes to sequence
      number k; every packet but the last holds 1 to chunkSize bytes of the
      file and is not flagged EOF; the last is empty and flagged EOF. */
  lemma FrameContents(file: seq<byte>, chunkSize: nat, k: nat)
    requires chunkSize > 0 && k < |Payloads(file, chunkSize)| && k < SeqLimit
    ensures var ps := Payloads(file, chunkSize);
      var p := ParsePacket(Frame(ps, k));
      p.Some? && p.value.seqNum == k && p.value.payload == ps[k] &&
      (k < |ps| - 1 ==> !p.value.eof && 1 <= |p.value.payload| <= chunkSize) &&
      (k == |ps| - 1 ==> p.value.eof && p.value.payload == [])
  {
    var ps := Payloads(file, chunkSize);
    PayloadsShape(file, chunkSize);
    ParseMakePacket(k, ps[k], k == |ps| - 1);
  }

  /** The event is a datagram whose bytes are exactly `ack` (from any address:
      the sender does not look at where an ACK comes from). */
  predicate IsAck(e: Event, ack: seq<byte>)
  {
    e.Datagram? && e.data == ack
  }

  /** How the retry loop for one packet ends: whether the ACK came, how many
      times the packet was sent, and how far the script was read. */
  datatype Attempt = Attempt(acked: bool, sends: nat, next: nat)

  /** The retry loop for one packet whose ACK is `ack`, entered with `retries`
      timeouts counted and the script read up to `i`. Each round sends the
      packet and receives once: the exact ACK ends the loop, any other datagram
      leads to a resend without counting, a timeout (or a silent channel)
      counts one retry. */
  function Attempts(events: seq<Event>, i: nat, ack: seq<byte>, retries: nat): (a: Attempt)
    requires i <= |events| && retries <= MaxRetries
    ensures i <= a.next <= |events|
    ensures a.acked ==> i < a.next && IsAck(events[a.next - 1], ack)
    ensures !a.acked ==> a.sends >= MaxRetries - retries
    ensures retries < MaxRetries ==> a.sends >= 1
    decreases |events| - i, MaxRetries - retries
  {
    if retries == MaxRetries then Attempt(false, 0, i)
    else
      var got := Receive(events, i);
      if got.event.Datagram? && got.event.data == ack then Attempt(true, 1, got.next)
      else
        var a := Attempts(events, got.next, ack, if got.event.Datagram? then retries else retries + 1);
        Attempt(a.acked, a.sends + 1, a.next)
  }

  /** The retry loop ends at the first exact ACK in the script: none of the
      events it consumed before its last one (or, when it gave up, none at all)
      was that ACK. So the sequence number advances only on the exact ACK. */
  lemma {:induction false} FirstExactAck(events: seq<Event>, i: nat, ack: seq<byte>, retries: nat)
    requires i <= |events| && retries <= MaxRetries
    ensures var a := Attempts(events, i, ack, retries);
      forall j :: i <= j < a.next ==> (IsAck(events[j], ack) <==> a.acked && j == a.next - 1)
    decreases |events| - i, MaxRetries - retries
  {
    if retries < MaxRetries {
      var got := Receive(events, i);
      if !(got.event.Datagram? && got.event.data == ack) {
        FirstExactAck(events, got.next, ack, if got.event.Datagram? then retries else retries + 1);
      }
    }
  }

  /** How send_file ends: the EOF packet was acknowledged; the retries for
      packet seqNum ran out; or a sequence number no longer fitted in 32 bits
      (struct.pack raises). */
  datatype Outcome = Delivered | GaveUp(seqNum: nat) | SeqOverflow

  /** A sender run: how it ended, what it sent, how much of the script it read. */
  datatype Run = Run(outcome: Outcome, sent: seq<Outbound>, used: nat)

  /** The stop-and-wait transfer of `payloads` to `addr` from packet k on,
      with the script read up to i. */
  function Transfer(payloads: seq<seq<byte>>, addr: Addr, events: seq<Event>, k: nat, i: nat): (r: Run)
    requires k < |payloads| && i <= |events|
    ensures i <= r.used <= |events|
    decreases |payloads| - k
  {
    if k >= SeqLimit then Run(SeqOverflow, [], i)
    else
      var a := Attempts(events, i, AckFor(k), 0);
      var here := Repeat(Send(Frame(payloads, k), addr), a.sends);
      if !a.acked then Run(GaveUp(k), here, a.next)
      else if k == |payloads| - 1 then Run(Delivered, here, a.next)
      else
        var rest := Transfer(payloads, addr, events, k + 1, a.next);
        Run(rest.outcome, here + rest.sent, rest.used)
  }

  /** A transfer gives up only on one of its own packets, and it is delivered
      only when the ACK of the last (EOF) packet was the last event it read. */
  lemma {:induction false} TransferOutcome(payloads: seq<seq<byte>>, addr: Addr, events: seq<Event>, k: nat, i: nat)
    requires k < |payloads| && i <= |events|
    ensures var r := Transfer(payloads, addr, events, k, i);
      (r.outcome.GaveUp? ==> k <= r.outcome.seqNum < |payloads|) &&
      (r.outcome == Delivered ==>
        |payloads| <= SeqLimit && i < r.used && IsAck(events[r.used - 1], AckFor(|payloads| - 1)))
    decreases |payloads| - k
  {
    if k < SeqLimit {
      var a := Attempts(events, i, AckFor(k), 0);
      if a.acked && k < |payloads| - 1 {
        TransferOutcome(payloads, addr, events, k + 1, a.next);
      }
    }
  }

  /** The retry loop of send_file for one packet (`while retries < MAX_RETRIES`):
      sends `packet` to `addr`, then receives once; stops at the exact `ack` or
      after MaxRetries timeouts. Reads the script from `from`; returns whether
      the ACK came, how many times the packet was sent, and where the script
      was left. */
  method SendUntilAcked(packet: seq<byte>, ack: seq<byte>, addr: Addr, events: seq<Event>, from: nat)
    returns (acked: bool, sent: seq<Outbound>, used: nat)
    requires from <= |events|
    ensures var a := Attempts(events, from, ack, 0);
      acked == a.acked && sent == Repeat(Send(packet, addr), a.sends) && used == a.next
  {
    var retries := 0;
    acked, sent, used := false, [], from;
    while retries < MaxRetries && !acked
      invariant from <= used <= |events| && retries <= MaxRetries
      invariant sent == Repeat(Send(packet, addr), |sent|)
      invariant !acked ==> (var a := Attempts(events, used, ack, retries);
        Attempts(events, from, ack, 0) == Attempt(a.acked, |sent| + a.sends, a.next))
      invariant acked ==> Attempts(events, from, ack, 0) == Attempt(true, |sent|, used)
      decreases |events| - used, MaxRetries - retries
    {
      RepeatSnoc(Send(packet, addr), |sent|);
      sent := sent + [Send(packet, addr)];
      var got := Receive(events, used);
      used := got.next;
      if got.event.Datagram? {
        acked := got.event.data == ack;
      } else {
        retries := retries + 1;
      }
    }
  }

  /** send_file: reads `file` chunk by chunk and runs the stop-and-wait loop
      over the scripted channel `events`, of which `from` were consumed
      before; returns how it ended, every datagram it sent, and how far the
      script has then been consumed. */
  method SendFile(file: seq<byte>, chunkSize: nat, addr: Addr, events: seq<Event>, from: nat)
    returns (outcome: Outcome, sent: seq<Outbound>, used: nat)
    requires chunkSize > 0 && from <= |events|
    ensures Run(outcome, sent, used) == Transfer(Payloads(file, chunkSize), addr, events, 0, from)
  {
    ghost var payloads := Payloads(file, chunkSize);
    outcome, sent, used := Delivered, [], from;
    var pos, seqNum := 0, 0;
    var done := false;
    while !done
      invariant pos <= |file| && used <= |events|
      invariant seqNum <= |Chunks(file, chunkSize)|
      invariant Chunks(file[pos..], chunkSize) == Chunks(file, chunkSize)[seqNum..]
      invariant !done ==> Transfer(payloads, addr, events, 0, from) == After(sent, Transfer(payloads, addr, events, seqNum, used))
      invariant done ==> Transfer(payloads, addr, events, 0, from) == Run(outcome, sent, used)
      decreases |file| - pos, if done then 0 else 1
    {
      // f.read(chunkSize)
      var end := if pos + chunkSize <= |file| then pos + chunkSize else |file|;
      var chunk := file[pos..end];
      var eof := chunk == [];
      ChunkRead(file, chunkSize, pos, seqNum);
      if seqNum >= SeqLimit {
        outcome, done := SeqOverflow, true;
      } else {
        var packet := MakePacket(seqNum, chunk, eof).value;
        var acked, copies, next := SendUntilAcked(packet, EncodeAck(seqNum).value, addr, events, used);
        TransferStep(payloads, addr, events, seqNum, used);
        if !acked {
          outcome, done := GaveUp(seqNum), true;
        } else if eof {
          outcome, done := Delivered, true;
        } else {
          AfterAfter(sent, copies, Transfer(payloads, addr, events, seqNum + 1, next));
          pos, seqNum := end, seqNum + 1;
        }
        sent, used := sent + copies, next;
      }
    }
  }

  /** A run preceded by datagrams already sent. */
  function After(prefix: seq<Outbound>, r: Run): Run
  {
    Run(r.outcome, prefix + r.sent, r.used)
  }

  lemma AfterAfter(a: seq<Outbound>, b: seq<Outbound>, r: Run)
    ensures After(a, After(b, r)) == After(a + b, r)
  {
    assert a + (b + r.sent) == (a + b) + r.sent;
  }

  /** One packet of a transfer: the retry loop, then the end of the run or the next packet. */
  lemma TransferStep(payloads: seq<seq<byte>>, addr: Addr, events: seq<Event>, k: nat, i: nat)
    requires k < |payloads| && k < SeqLimit && i <= |events|
    ensures var a := Attempts(events, i, AckFor(k), 0);
      var copies := Repeat(Send(Frame(payloads, k), addr), a.sends);
      Transfer(payloads, addr, events, k, i) ==
        if !a.acked then Run(GaveUp(k), copies, a.next)
        else if k == |payloads| - 1 then Run(Delivered, copies, a.next)
        else After(copies, Transfer(payloads, addr, events, k + 1, a.next))
  {
  }

  /** What one f.read(chunkSize) at offset pos yields when seqNum chunks came before. */
  lemma ChunkRead(file: seq<byte>, chunkSize: nat, pos: nat, seqNum: nat)
    requires chunkSize > 0 && pos <= |file| && seqNum <= |Chunks(file, chunkSize)|
    requires Chunks(file[pos..], chunkSize) == Chunks(file, chunkSize)[seqNum..]
    ensures var end := if pos + chunkSize <= |file| then pos + chunkSize else |file|;
      var ps := Payloads(file, chunkSize);
      seqNum < |ps| && ps[seqNum] == file[pos..end] &&
      (file[pos..end] == [] <==> seqNum == |ps| - 1) &&
      (end > pos ==> (seqNum + 1 <= |Chunks(file, chunkSize)| &&
        Chunks(file[end..], chunkSize) == Chunks(file, chunkSize)[seqNum + 1..]))
  {
    var end := if pos + chunkSize <= |file| then pos + chunkSize else |file|;
    var all := Chunks(file, chunkSize);
    var rest := file[pos..];
    if pos == |file| {
      assert rest == [];
      assert |all| == seqNum;
    } else {
      assert rest[..end - pos] == file[pos..end];
      assert rest[end - pos..] == file[end..];
      assert Chunks(rest, chunkSize)[0] == file[pos..end];
      assert Chunks(rest, chunkSize)[1..] == Chunks(file[end..], chunkSize);
    }
  }

  lemma RepeatSnoc(d: Outbound, n: nat)
    ensures Repeat(d, n) + [d] == Repeat(d, n + 1)
  {
  }

  // ---- Properties of the specification ----

  /** A script that only times out (or is silent): the packet is sent exactly
      once per remaining retry and never acknowledged. */
  lemma {:induction false} OnlyTimeouts(events: seq<Event>, i: nat, ack: seq<byte>, retries: nat)
    requires i <= |events| && retries <= MaxRetries
    requires forall j :: i <= j < |events| ==> events[j] == Timeout
    ensures var n := MaxRetries - retries;
      Attempts(events, i, ack, retries)
        == Attempt(false, n, if i + n <= |events| then i + n else |events|)
    decreases MaxRetries - retries
  {
    if retries < MaxRetries {
      OnlyTimeouts(events, if i < |events| then i + 1 else i, ack, retries + 1);
    }
  }

  /** Bounded retry: when no ACK ever arrives, send_file sends the first packet
      exactly MaxRetries times and gives up on sequence number 0. */
  lemma SilentPeerGivesUp(file: seq<byte>, chunkSize: nat, addr: Addr, events: seq<Event>)
    requires chunkSize > 0
    requires forall j :: 0 <= j < |events| ==> events[j] == Timeout
    ensures var ps := Payloads(file, chunkSize);
      Transfer(ps, addr, events, 0, 0)
        == Run(GaveUp(0), Repeat(Send(Frame(ps, 0), addr), MaxRetries),
               if MaxRetries <= |events| then MaxRetries else |events|)
  {
    OnlyTimeouts(events, 0, AckFor(0), 0);
  }

  /** A datagram that is not the exact ACK causes a resend but does not count
      as a retry: a run of such datagrams only adds one send each. */
  lemma {:induction false} NoiseIsNotARetry(events: seq<Event>, i: nat, j: nat, ack: seq<byte>, retries: nat)
    requires i <= j <= |events| && retries < MaxRetries
    requires forall m :: i <= m < j ==> events[m].Datagram? && !IsAck(events[m], ack)
    ensures var b := Attempts(events, j, ack, retries);
      Attempts(events, i, ack, retries) == Attempt(b.acked, b.sends + (j - i), b.next)
    decreases j - i
  {
    if i < j {
      NoiseIsNotARetry(events, i + 1, j, ack, retries);
    }
  }

  /** Consequently, `noise` non-ACK datagrams followed by silence make the
      sender transmit the packet |noise| + MaxRetries times before giving up. */
  lemma NoiseThenSilence(noise: seq<Event>, ack: seq<byte>)
    requires forall m :: 0 <= m < |noise| ==> noise[m].Datagram? && !IsAck(noise[m], ack)
    ensures Attempts(noise, 0, ack, 0) == Attempt(false, |noise| + MaxRetries, |noise|)
  {
    NoiseIsNotARetry(noise, 0, |noise|, ack, 0);
    OnlyTimeouts(noise, |noise|, ack, 0);
  }

  /** One step of a transfer whose next event is the exact ACK: the packet goes
      out once and the transfer moves on (or ends, after the EOF packet). */
  lemma AckedAtOnce(payloads: seq<seq<byte>>, addr: Addr, events: seq<Event>, k: nat, i: nat)
    requires k < |payloads| && k < SeqLimit && i < |events| && IsAck(events[i], AckFor(k))
    ensures var frame := Send(Frame(payloads, k), addr);
      Transfer(payloads, addr, events, k, i) ==
        if k == |payloads| - 1 then Run(Delivered, [frame], i + 1)
        else var rest := Transfer(payloads, addr, events, k + 1, i + 1);
          Run(rest.outcome, [frame] + rest.sent, rest.used)
  {
    assert Attempts(events, i, AckFor(k), 0) == Attempt(true, 1, i + 1);
    assert Repeat(Send(Frame(payloads, k), addr), 1) == [Send(Frame(payloads, k), addr)];
  }

  lemma {:induction false} LossFreeFrom(payloads: seq<seq<byte>>, addr: Addr, from: Addr, events: seq<Event>, off: nat, k: nat)
    requires k < |payloads| <= SeqLimit
    requires off + |payloads| <= |events| && events[off..off + |payloads|] == AckScript(|payloads|, from)
    ensures Transfer(payloads, addr, events, k, off + k) == Run(Delivered, FrameLog(payloads, addr)[k..], off + |payloads|)
    decreases |payloads| - k
  {
    assert events[off + k] == events[off..off + |payloads|][k];
    AckedAtOnce(payloads, addr, events, k, off + k);
    FrameLogStep(payloads, addr, k);
    if k < |payloads| - 1 {
      LossFreeFrom(payloads, addr, from, events, off, k + 1);
    }
  }

  lemma FrameLogStep(payloads: seq<seq<byte>>, addr: Addr, k: nat)
    requires k < |payloads| <= SeqLimit
    ensures FrameLog(payloads, addr)[k..] == [Send(Frame(payloads, k), addr)] + FrameLog(payloads, addr)[k + 1..]
  {
  }

  /** When every packet is acknowledged at once (the events from index `off`
      on are the ACKs of packets 0, 1, ... in order, whatever follows them), the sender transmits each
      packet exactly once in sequence order, reads one ACK per packet and
      finishes right after the EOF packet's ACK. */
  lemma LossFreeSender(payloads: seq<seq<byte>>, addr: Addr, from: Addr, events: seq<Event>, off: nat)
    requires 0 < |payloads| <= SeqLimit
    requires off + |payloads| <= |events| && events[off..off + |payloads|] == AckScript(|payloads|, from)
    ensures Transfer(payloads, addr, events, 0, off) == Run(Delivered, FrameLog(payloads, addr), off + |payloads|)
  {
    LossFreeFrom(payloads, addr, from, events, off, 0);
  }

  /** The sequence number a sent packet carries (-1 for a datagram that is not a packet). */
  function SeqOf(o: Outbound): int
  {
    match ParsePacket(o.data)
    case Some(p) => p.seqNum
    case None => -1
  }

  /** What a run from packet k sends: only packets of this transfer, to `addr`,
      starting with packet k; between consecutive sends the sequence number
      stays (a retransmission of identical bytes) or grows by exactly one. */
  predicate SentInOrder(payloads: seq<seq<byte>>, addr: Addr, k: nat, sent: seq<Outbound>)
  {
    (|sent| > 0 ==> SeqOf(sent[0]) == k) &&
    (forall j :: 0 <= j < |sent| ==>
      k <= SeqOf(sent[j]) < |payloads| && SeqOf(sent[j]) < SeqLimit &&
      sent[j] == Send(Frame(payloads, SeqOf(sent[j])), addr)) &&
    (forall j :: 0 < j < |sent| ==>
      SeqOf(sent[j - 1]) <= SeqOf(sent[j]) <= SeqOf(sent[j - 1]) + 1)
  }

  lemma {:induction false} TransferSendsInOrder(payloads: seq<seq<byte>>, addr: Addr, events: seq<Event>, k: nat, i: nat)
    requires k < |payloads| && i <= |events|
    ensures SentInOrder(payloads, addr, k, Transfer(payloads, addr, events, k, i).sent)
    decreases |payloads| - k
  {
    if k < SeqLimit {
      var a := Attempts(events, i, AckFor(k), 0);
      var here := Repeat(Send(Frame(payloads, k), addr), a.sends);
      RepeatInOrder(payloads, addr, k, a.sends);
      if a.acked && k != |payloads| - 1 {
        TransferSendsInOrder(payloads, addr, events, k + 1, a.next);
        InOrderConcat(payloads, addr, k, here, Transfer(payloads, addr, events, k + 1, a.next).sent);
      }
    }
  }

  /** Copies of packet k alone are in order. */
  lemma RepeatInOrder(payloads: seq<seq<byte>>, addr: Addr, k: nat, n: nat)
    requires k < |payloads| && k < SeqLimit
    ensures SentInOrder(payloads, addr, k, Repeat(Send(Frame(payloads, k), addr), n))
  {
    ParseMakePacket(k, payloads[k], k == |payloads| - 1);
  }

  /** Copies of packet k followed by an in-order log from packet k + 1 are in order. */
  lemma InOrderConcat(payloads: seq<seq<byte>>, addr: Addr, k: nat, here: seq<Outbound>, rest: seq<Outbound>)
    requires SentInOrder(payloads, addr, k, here) && SentInOrder(payloads, addr, k + 1, rest)
    requires |here| > 0 && forall j :: 0 <= j < |here| ==> SeqOf(here[j]) == k
    ensures SentInOrder(payloads, addr, k, here + rest)
  {
    var all := here + rest;
    forall j | 0 <= j < |all|
      ensures k <= SeqOf(all[j]) < |payloads| && SeqOf(all[j]) < SeqLimit
      ensures all[j] == Send(Frame(payloads, SeqOf(all[j])), addr)
    {
      if j >= |here| {
        assert all[j] == rest[j - |here|];
      }
    }
    forall j | 0 < j < |all|
      ensures SeqOf(all[j - 1]) <= SeqOf(all[j]) <= SeqOf(all[j - 1]) + 1
    {
      if j > |here| {
        assert all[j] == rest[j - |here|] && all[j - 1] == rest[j - 1 - |here|];
      } else if j == |here| {
        assert all[j] == rest[0];
      }
    }
  }
}
