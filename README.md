# Stop-and-wait UDP file transfer, modelled in Dafny

This project models the UDP file transfer of `file_transfer/src/udp/`. It is a stop-and-wait
ARQ (automatic repeat request) protocol:

- **The server** (`udp_server.py`) answers `ping` with `pong`.
- **A request** is a datagram holding the served file's name. It makes the server run `send_file`
  for the requester.
- **`send_file`** works packet by packet:
  - It reads the file in chunks and frames each chunk.
  - A packet is a 5-byte header, then the chunk. The header holds a big-endian 32-bit sequence
    number and an EOF flag byte.
  - It sends one packet at a time, waiting for the exact 7-byte acknowledgment "ACK" + big-endian
    sequence number.
  - It retransmits after each timeout, up to five timeouts per packet.
  - It ends with an empty packet flagged EOF.
- **The client's `receive_file`** (`udp_client.py`) works as follows:
  - It sends the request.
  - It accepts packets only from the server and only in sequence-number order.
  - It writes their payloads to the destination and acknowledges each one.
  - It answers any other packet with an ACK of the last number it accepted.
  - It stops after the EOF packet.

Modules:

- `Wire` (`wire.dfy`) covers the byte formats:
  - `Pack32`/`Unpack32` for struct's `"!I"`;
  - `MakePacket`/`ParsePacket`;
  - `EncodeAck`.

  Packing a value outside `[0, 2^32)` fails with `None`, as struct.pack raises.
- `Net` (`net.dfy`) covers the channel:
  - What a socket receives is a finite script of events: a `Timeout` or a `Datagram(data, from)`.
  - Once the script is used up, every receive times out.
  - What a machine sends is an ordered log of `Send(data, to)`.
- `Sender` (`sender.dfy`) models `send_file`:
  - The method `SendFile` reads the file chunk by chunk with a `while` loop.
  - Its retry loop is the method `SendUntilAcked`.
  - Both are proved equal to the pure specification `Transfer`/`Attempts`.
  - The protocol's properties are lemmas about that specification.
- `Receiver` (`receiver.dfy`) models `receive_file`:
  - The method `ReceiveFile` is proved equal to `Run`, the fold of the one-event transition
    `Step`.
  - The receiver's invariant `Inv` is preserved by every step.
- `Dispatcher` (`dispatcher.dfy`) models the request loop of the server's `main`:
  - The method `ServeRequests` is proved equal to `Serve`.
  - `send_file` sets the socket timeout and never resets it. After the first transfer, a timeout
    of the loop's own receive therefore escapes `main` and stops the server. The flag `armed`
    models this. A script used up after a transfer is such a timeout; before any transfer the
    receive blocks, and a used-up script leaves the server waiting.
  - `Serve`'s flag `resets` selects the code as written (`false`: the timeout stays set) or the
    corrected loop that clears it after each transfer (`true`); see "## Findings".
- `Session` (`session.dfy`) connects both sides over a loss-free channel. The client receives
  exactly the file.

Sequence numbers have a fixed width. The sender can number at most 2^32 packets: once
`seq_num` reaches 2^32, struct.pack raises and the server stops (`SeqOverflow`). The
receiver's re-ACK of `expected_seq - 1` while `expected_seq` is 0 also raises
(`AckOverflow`); it does not wrap around.

The sender does not check where an ACK comes from: any datagram with the exact bytes releases
the packet. A datagram that is not the exact ACK makes the sender resend without counting a
retry; only timeouts count.

## Model

| member | source | states |
|---|---|---|
| Wire.Pack32 | file_transfer/src/udp/udp_server.py:27 | struct.pack("!I", n) succeeds exactly for 0 <= n < 2^32, giving 4 bytes that unpack back to n |
| Wire.Unpack32 | file_transfer/src/udp/udp_client.py:51 | struct.unpack("!I") reads four bytes as a big-endian value, always below 2^32 (its inverse property is PackUnpack) |
| Wire.PackUnpack | file_transfer/src/udp/udp_server.py:34 | every 4 bytes are the packing of their big-endian value (unpack then pack is the identity) |
| Wire.MakePacket | file_transfer/src/udp/udp_server.py:25-28 | make_packet fails exactly when the sequence number is outside the unsigned 32-bit range; otherwise the packet is 5 + len(data) bytes |
| Wire.MakePacketLayout | file_transfer/src/udp/udp_server.py:25-28 | bytes 0-3 are the big-endian sequence number, byte 4 is 1 for EOF and 0 otherwise, the rest is the data unchanged |
| Wire.ParsePacket | file_transfer/src/udp/udp_server.py:31-36 | parsing fails exactly on fewer than 5 bytes; otherwise the sequence number is the one whose big-endian packing is bytes 0-3, EOF holds exactly when byte 4 is non-zero (any value, not only 1), and the payload is everything after the 5-byte header |
| Wire.ParseMakePacket | file_transfer/src/udp/udp_server.py:25-36 | round trip: parsing a built packet gives back its sequence number, EOF flag and data |
| Wire.MakeParsePacket | file_transfer/src/udp/udp_server.py:31-36 | converse round trip: a datagram of at least 5 bytes whose flag byte is 0 or 1 is exactly the packet built from what it parses to |
| Wire.EncodeAck | file_transfer/src/udp/udp_client.py:21-24 | send_ack's datagram is 7 bytes, "ACK" then the big-endian number; it fails for numbers outside [0, 2^32) |
| Wire.AckNamesOneSeq | file_transfer/src/udp/udp_server.py:58 | the byte comparison of an ACK with the expected one matches exactly one sequence number |
| Net.Receive | file_transfer/src/udp/udp_client.py:36-40 | a receive yields the next event of the script and consumes it, or, once the script is used up, a timeout that consumes nothing |
| Sender.ChunksShape | file_transfer/src/udp/udp_server.py:44-50 | the chunks read concatenate to the file, each holds 1 to chunkSize bytes, and there are at most len(file) of them |
| Sender.PayloadsShape | file_transfer/src/udp/udp_server.py:44-50 | the payloads in sequence order concatenate to the file, all but the last hold 1 to chunkSize bytes, and the last is empty |
| Sender.FrameContents | file_transfer/src/udp/udp_server.py:44-50 | packet k parses to sequence number k; data packets are not flagged EOF and hold 1 to chunkSize bytes; the last packet is empty and flagged EOF |
| Sender.ChunkRead | file_transfer/src/udp/udp_server.py:44-47 | f.read at the current offset yields the next payload, and an empty read happens exactly at the EOF packet |
| Sender.Attempts | file_transfer/src/udp/udp_server.py:52-68 | the retry loop reads forward only; when acknowledged, the last event it read is the exact ACK; when it gives up, it has sent the packet at least MAX_RETRIES - retries times; it always sends at least once |
| Sender.FirstExactAck | file_transfer/src/udp/udp_server.py:53-60 | the retry loop stops at the first exact ACK in the script and at no other event, so the sequence number advances only on that ACK |
| Sender.SendUntilAcked | file_transfer/src/udp/udp_server.py:52-68 | the retry loop as a method: whether the ACK came, the packet repeated as many times as it was sent, and where the script was left, all as Attempts specifies |
| Sender.Transfer | file_transfer/src/udp/udp_server.py:41-73 | a transfer reads the script forward only and never past its end |
| Sender.TransferOutcome | file_transfer/src/udp/udp_server.py:64-72 | a transfer gives up only on one of its own packets, and is delivered only right after reading the ACK of the EOF packet, with at most 2^32 packets |
| Sender.SendFile | file_transfer/src/udp/udp_server.py:39-73 | send_file as a method reading the file chunk by chunk: its outcome, the datagrams it sent and how far it read the script are those of Transfer over the file's payloads |
| Sender.OnlyTimeouts | file_transfer/src/udp/udp_server.py:53-68 | on a script of timeouts only, the retry loop sends the packet exactly MAX_RETRIES - retries times and gives up |
| Sender.SilentPeerGivesUp | file_transfer/src/udp/udp_server.py:53-68 | bounded retry: with no ACK ever, send_file sends packet 0 exactly 5 times and gives up on sequence number 0 |
| Sender.NoiseIsNotARetry | file_transfer/src/udp/udp_server.py:53-62 | each non-matching datagram causes one more send without consuming a retry |
| Sender.NoiseThenSilence | file_transfer/src/udp/udp_server.py:53-68 | n non-matching datagrams followed by silence cause exactly n + 5 sends before giving up |
| Sender.AckedAtOnce | file_transfer/src/udp/udp_server.py:52-72 | when the next event is the exact ACK, the packet is sent once and the transfer moves to the next sequence number, or ends after the EOF packet |
| Sender.LossFreeSender | file_transfer/src/udp/udp_server.py:41-73 | when every packet is acknowledged at once, each packet is sent exactly once in order, one ACK per packet is read, and the transfer is delivered |
| Sender.TransferSendsInOrder | file_transfer/src/udp/udp_server.py:42-72 | every datagram sent is a packet of this file to the requester; sequence numbers start at 0 and between consecutive sends stay (identical retransmission) or grow by one |
| Receiver.Step | file_transfer/src/udp/udp_client.py:42-64 | one pass of the receive loop only appends to the destination and the outbound log, sends at most one datagram, and advances expected_seq by at most one |
| Receiver.Run | file_transfer/src/udp/udp_client.py:35-64 | on a finite script the receive loop always ends: completed, timed out, or stopped by the unpackable re-ACK |
| Receiver.ReceiveFile | file_transfer/src/udp/udp_client.py:27-66 | receive_file as a method: its final status, the bytes it wrote and the datagrams it sent are those of Run from the state after the request |
| Receiver.StartInv | file_transfer/src/udp/udp_client.py:31-33 | after the request, the invariant holds: nothing accepted, nothing written, expected_seq 0 |
| Receiver.StepInv | file_transfer/src/udp/udp_client.py:54-64 | every loop pass preserves the invariant (expected_seq counts the accepted packets, numbered 0, 1, ...; the output is their payloads in order; completion exactly after an EOF packet) and only appends to the output and the outbound log |
| Receiver.RunInv | file_transfer/src/udp/udp_client.py:35-64 | the whole loop preserves the invariant and only appends |
| Receiver.ReceiveFileGuarantees | file_transfer/src/udp/udp_client.py:31-61 | the first datagram is the request to the server; the output is the in-order concatenation of the accepted payloads, numbered 0, 1, ..., so duplicates are never written twice; completion happens exactly when an EOF packet was accepted last |
| Receiver.IgnoredDatagram | file_transfer/src/udp/udp_client.py:42-49 | a datagram from another address, or shorter than the header, changes nothing |
| Receiver.UnexpectedPacket | file_transfer/src/udp/udp_client.py:62-64 | a packet with another sequence number writes nothing and keeps expected_seq; it sends an ACK of expected_seq - 1, or, when expected_seq is 0, stops the receiver without sending |
| Receiver.RedeliveryIsIdempotent | file_transfer/src/udp/udp_client.py:54-64 | re-delivering an already accepted packet leaves output and expected_seq unchanged and re-acknowledges the last accepted packet |
| Receiver.ExpectedPacket | file_transfer/src/udp/udp_client.py:54-61 | in any receiving state, a packet from the server with the expected number has exactly its payload appended, is acknowledged with its own number, advances expected_seq by one, and completes the receiver exactly when its flag byte is non-zero |
| Receiver.AcceptNext | file_transfer/src/udp/udp_client.py:54-61 | in a loss-free run, accepting packet k of the transfer moves from the state after k packets to the state after k + 1 |
| Receiver.LossFreeReceiver | file_transfer/src/udp/udp_client.py:27-66 | when every packet arrives once, in order, the receiver completes having written exactly the concatenated payloads and acknowledged each packet once, in order |
| Dispatcher.Serve | file_transfer/src/udp/udp_server.py:93-104 | the request loop (with resets false, the code as written; with resets true, the corrected loop that clears the timeout after each transfer): the server stops only once a transfer has armed the timeout or when a request for the served name is among the events |
| Dispatcher.ServeRequests | file_transfer/src/udp/udp_server.py:93-104 | the request loop as a method: the datagrams it sends and whether it stops are those of Serve as written (timeout never cleared), including the stop when an armed receive finds nothing more |
| Dispatcher.ServeAnswersOnlyRequests | file_transfer/src/udp/udp_server.py:93-104 | the server sends nothing unsolicited: every datagram is a pong to an address that sent ping, or a packet of the served file to an address that requested it |
| Dispatcher.PingsAnswered | file_transfer/src/udp/udp_server.py:94-97 | each ping gets exactly one pong to its sender, in arrival order, and nothing else is sent; when the pings stop, the server stops exactly when a transfer armed its timeout |
| Dispatcher.StrangersIgnored | file_transfer/src/udp/udp_server.py:99-104 | before any transfer, requests for any other name (and idle periods) get no reply and do not stop the server |
| Session.LossFreeTransfer | file_transfer/src/udp/udp_server.py:39-73 | over a loss-free channel, send_file is delivered, receive_file completes with exactly the file's bytes, and the ACKs the receiver sends are exactly those the sender consumed |
| Session.LossFreeRequest | file_transfer/src/udp/udp_server.py:93-104 | a request followed by the ACK of every packet makes the server send each packet once, in order, and go on with whatever follows, its timeout armed unless it clears it |
| Session.LossFreeSession | file_transfer/src/udp/udp_server.py:93-104 | a request and the ACKs reaching the server make it send each packet of the file once, in order; the client completes with exactly the file; what the server received is exactly what the client sent; then the server, its timeout still set, stops |
| Session.IdleAfterTransferStops | file_transfer/src/udp/udp_server.py:56 | as written, one receive timeout after a transfer stops the server, so a later ping gets no pong |
| Session.ResettingServerKeepsServing | file_transfer/src/udp/udp_server.py:93-104 | with the timeout cleared after the transfer, an idle period is no event, a later ping gets its pong, and the server keeps running |
| Session.EmptyFileSession | file_transfer/src/udp/udp_server.py:44-50 | an empty file travels as one empty EOF packet with sequence number 0, and the client ends with an empty file; the server then stops |

## Findings

| source | as written | input that shows it | evidently intended | confidence | as-written member | corrected member |
|---|---|---|---|---|---|---|
| file_transfer/src/udp/udp_server.py:56 | send_file sets the socket's 0.5 s timeout and nothing resets it, so the request loop's recvfrom at line 94 raises socket.timeout, which main does not catch, once the server has been idle for 0.5 s after a transfer | a request, the ACK of every packet, then an idle period and a ping: the server exits and the ping is never answered | the request loop blocks until the next request and serves until killed | not executed; high | Session.IdleAfterTransferStops | Session.ResettingServerKeepsServing |

## Left out

- The TCP variant (`file_transfer/src/tcp/`) is not part of this model. It only pumps bytes
  between sockets.
- Real sockets, clocks and the float timeouts (0.5 s for an ACK, the client's socket timeout) are
  not modelled. Every receive is an event of a finite script, and a timeout is the `Timeout` event.
- The receive buffer sizes (`recvfrom(1024)`, `recvfrom(BUFFER_SIZE)`) are not modelled, so the
  kernel's truncation of longer datagrams is absent.
- The UTF-8 decoding of the request in `main` is not modelled. The request's bytes are compared
  with the bytes of the served file's name. A request that is not valid UTF-8 would make
  `data.decode()` raise, and that failure is absent.
- The chunk size is a parameter `chunkSize > 0`, standing for `BUFFER_SIZE - 5`. `src.config` is
  not part of this model.
- Opening the source file and the destination file (`Path`, `open`, `exists`) is not modelled.
  The source is a byte sequence and the destination is the receiver's `output`, which is only
  appended to.
- Logging, `sys.argv`, environment variables and the process exits in both `main` functions are
  not modelled. The client's `sys.exit(1)` on a receive timeout is the receiver status `TimedOut`.
- Concurrency is not modelled: the code serves one transfer at a time.
