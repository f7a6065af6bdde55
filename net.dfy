/** The datagram channel as the two state machines see it. What a socket
    delivers is a finite script of events; once the script is used up, every
    further receive times out (both sides' sockets carry a timeout). What a
    machine sends is an ordered log of outbound datagrams. */
module Net {
  import opened Wire

  /** A UDP endpoint (host, port). */
  datatype Addr = Addr(host: string, port: int)

  /** The outcome of one recvfrom: a timeout, or a datagram and its sender. */
  datatype Event = Timeout | Datagram(data: seq<byte>, from: Addr)

  /** One sendto: the bytes and their destination. */
  datatype Outbound = Send(data: seq<byte>, to: Addr)

  /** What one recvfrom on the script yields when `i` events were consumed:
      the next event, or a timeout once the script is used up. */
  datatype Recv = Recv(event: Event, next: nat)

  function Receive(events: seq<Event>, i: nat): (r: Recv)
    requires i <= |events|
    ensures i < |events| ==> r.event == events[i] && r.next == i + 1
    ensures i == |events| ==> r.event == Timeout && r.next == i
  {
    if i < |events| then Recv(events[i], i + 1) else Recv(Timeout, i)
  }

  /** The events a peer at `from` observes when every datagram of `log` reaches it, in order. */
  function Deliver(log: seq<Outbound>, from: Addr): (r: seq<Event>)
    ensures |r| == |log|
    ensures forall j :: 0 <= j < |log| ==> r[j] == Datagram(log[j].data, from)
  {
    if log == [] then [] else [Datagram(log[0].data, from)] + Deliver(log[1..], from)
  }

  lemma {:induction false} DeliverAppend(a: seq<Outbound>, b: seq<Outbound>, from: Addr)
    ensures Deliver(a + b, from) == Deliver(a, from) + Deliver(b, from)
  {
    if a == [] {
      assert a + b == b;
    } else {
      assert (a + b)[1..] == a[1..] + b;
      DeliverAppend(a[1..], b, from);
    }
  }

  /** `n` copies of the same datagram: a packet and its retransmissions. */
  function Repeat(d: Outbound, n: nat): (r: seq<Outbound>)
    ensures |r| == n && forall j :: 0 <= j < n ==> r[j] == d
  {
    if n == 0 then [] else [d] + Repeat(d, n - 1)
  }

  /** The ACKs a loss-free receiver returns for packets 0 .. n-1, as they reach the sender. */
  function AckScript(n: nat, from: Addr): seq<Event>
    requires n <= SeqLimit
  {
    seq(n, k requires 0 <= k < n => Datagram(AckFor(k), from))
  }

  /** Every packet of a transfer, sent once each, in order. */
  function FrameLog(payloads: seq<seq<byte>>, addr: Addr): seq<Outbound>
    requires |payloads| <= SeqLimit
  {
    seq(|payloads|, k requires 0 <= k < |payloads| => Send(Frame(payloads, k), addr))
  }

  /** The ACKs for packets 0 .. n-1, in order, sent to `to`. */
  function AckLog(n: nat, to: Addr): seq<Outbound>
    requires n <= SeqLimit
  {
    seq(n, k requires 0 <= k < n => Send(AckFor(k), to))
  }
}
