/** Wire formats of the UDP stop-and-wait transfer: the 5-byte data-packet
    header (struct format "!I?": a big-endian 32-bit sequence number and a
    one-byte EOF flag) followed by the payload, and the 7-byte acknowledgment
    ("ACK" followed by the big-endian sequence number). */
module Wire {

  /** One octet of a datagram. */
  type byte = b: int | 0 <= b < 256

  datatype Option<T> = None | Some(value: T)

  /** Size of the packet header: 4 bytes of sequence number, 1 byte of EOF flag. */
  const HeaderSize: nat := 5

  /** Sequence numbers are packed as unsigned 32-bit integers. */
  const SeqLimit: nat := 0x1_0000_0000

  /** The acknowledgment marker, the bytes of "ACK". */
  const AckTag: seq<byte> := [0x41, 0x43, 0x4B]

  /** A decoded data packet. */
  datatype Packet = Packet(seqNum: nat, eof: bool, payload: seq<byte>)

  /** Big-endian value of four bytes, as struct.unpack("!I") reads them. */
  function Unpack32(b: seq<byte>): (n: nat)
    requires |b| == 4
    ensures n < SeqLimit
  {
    var b0: int, b1: int, b2: int, b3: int := b[0], b[1], b[2], b[3];
    ((b0 * 0x100 + b1) * 0x100 + b2) * 0x100 + b3
  }

  /** struct.pack("!I", n): four big-endian bytes, or a failure (the source
      raises struct.error) when n is not an unsigned 32-bit value. */
  function Pack32(n: int): (r: Option<seq<byte>>)
    ensures r.Some? <==> 0 <= n < SeqLimit
    ensures r.Some? ==> |r.value| == 4 && Unpack32(r.value) == n
  {
    if 0 <= n < SeqLimit then
      var n1 := n / 0x100;
      var n2 := n1 / 0x100;
      Some([n2 / 0x100, n2 % 0x100, n1 % 0x100, n % 0x100])
    else
      None
  }

  /** Packing is the inverse of unpacking: four bytes are the only encoding of their value. */
  lemma PackUnpack(b: seq<byte>)
    requires |b| == 4
    ensures Pack32(Unpack32(b)) == Some(b)
  {
    var b0: int, b1: int, b2: int, b3: int := b[0], b[1], b[2], b[3];
    var n := Unpack32(b);
    var n2 := b0 * 0x100 + b1;
    var n1 := n2 * 0x100 + b2;
    assert n == n1 * 0x100 + b3;
    assert n / 0x100 == n1 && n % 0x100 == b3;
    assert n1 / 0x100 == n2 && n1 % 0x100 == b2;
    assert n2 / 0x100 == b0 && n2 % 0x100 == b1;
    assert Pack32(n).value == [b[0], b[1], b[2], b[3]] == b;
  }

  /** The EOF flag byte written by struct.pack("?"). */
  function FlagByte(eof: bool): byte
  {
    if eof then 1 else 0
  }

  /** make_packet: the header for seqNum and eof, then data. Fails, as struct.pack
      does, when seqNum is not an unsigned 32-bit value. */
  function MakePacket(seqNum: int, data: seq<byte>, eof: bool): (r: Option<seq<byte>>)
    ensures r.Some? <==> 0 <= seqNum < SeqLimit
    ensures r.Some? ==> |r.value| == HeaderSize + |data|
  {
    match Pack32(seqNum)
    case None => None
    case Some(header) => Some(header + [FlagByte(eof)] + data)
  }

  /** parse_packet and the client's inline header decoding: fails on fewer than
      HeaderSize bytes; otherwise the big-endian sequence number, EOF when
      byte 4 is non-zero, and everything after the header as payload. */
  function ParsePacket(p: seq<byte>): (r: Option<Packet>)
    ensures r.None? <==> |p| < HeaderSize
    ensures r.Some? ==> Pack32(r.value.seqNum) == Some(p[..4])
    ensures r.Some? ==> (r.value.eof <==> p[4] != 0) && r.value.payload == p[HeaderSize..]
  {
    if |p| < HeaderSize then None
    else
      PackUnpack(p[..4]);
      Some(Packet(Unpack32(p[..4]), p[4] != 0, p[HeaderSize..]))
  }

  /** The header layout of a built packet: big-endian sequence number in bytes
      0-3, 1 or 0 in byte 4, then the data unchanged. */
  lemma MakePacketLayout(seqNum: nat, data: seq<byte>, eof: bool)
    requires seqNum < SeqLimit
    ensures var p := MakePacket(seqNum, data, eof).value;
      p[..4] == Pack32(seqNum).value && p[4] == (if eof then 1 else 0) && p[HeaderSize..] == data
  {
    var p := MakePacket(seqNum, data, eof).value;
    var header := Pack32(seqNum).value;
    assert p == header + [FlagByte(eof)] + data;
    assert p[..4] == header;
    assert p[HeaderSize..] == data;
  }

  /** Decoding a built packet gives back its sequence number, flag and data. */
  lemma {:induction false} ParseMakePacket(seqNum: nat, data: seq<byte>, eof: bool)
    requires seqNum < SeqLimit
    ensures ParsePacket(MakePacket(seqNum, data, eof).value) == Some(Packet(seqNum, eof, data))
  {
    MakePacketLayout(seqNum, data, eof);
  }

  /** Conversely, a datagram whose flag byte is 0 or 1 is exactly the packet
      built from what it decodes to. */
  lemma MakeParsePacket(p: seq<byte>)
    requires |p| >= HeaderSize && p[4] <= 1
    ensures var q := ParsePacket(p).value;
      MakePacket(q.seqNum, q.payload, q.eof) == Some(p)
  {
    var q := ParsePacket(p).value;
    PackUnpack(p[..4]);
    assert FlagByte(q.eof) == p[4];
    assert p == p[..4] + [p[4]] + p[HeaderSize..];
  }

  /** send_ack's datagram: "ACK" and the big-endian sequence number; fails, as
      struct.pack does, when n is not an unsigned 32-bit value. */
  function EncodeAck(n: int): (r: Option<seq<byte>>)
    ensures r.Some? <==> 0 <= n < SeqLimit
    ensures r.Some? ==> |r.value| == 7 && r.value[..3] == AckTag && Unpack32(r.value[3..]) == n
  {
    match Pack32(n)
    case None => None
    case Some(number) =>
      assert (AckTag + number)[3..] == number;
      Some(AckTag + number)
  }

  /** The datagram for packet k of a transfer: sequence number k, flagged EOF
      exactly when it is the last packet. */
  function Frame(payloads: seq<seq<byte>>, k: nat): seq<byte>
    requires k < |payloads| && k < SeqLimit
  {
    MakePacket(k, payloads[k], k == |payloads| - 1).value
  }

  /** The exact ACK datagram that releases packet k. */
  function AckFor(k: nat): seq<byte>
    requires k < SeqLimit
  {
    EncodeAck(k).value
  }

  /** An acknowledgment names exactly one sequence number. */
  lemma AckNamesOneSeq(m: int, n: int)
    requires EncodeAck(m).Some? && EncodeAck(m) == EncodeAck(n)
    ensures m == n
  {
  }

  /** Concatenation of a list of byte strings. */
  function Concat(parts: seq<seq<byte>>): (r: seq<byte>)
  {
    if parts == [] then [] else parts[0] + Concat(parts[1..])
  }

  lemma {:induction false} ConcatAppend(parts: seq<seq<byte>>, last: seq<byte>)
    ensures Concat(parts + [last]) == Concat(parts) + last
  {
    if parts == [] {
      assert parts + [last] == [last];
    } else {
      assert (parts + [last])[1..] == parts[1..] + [last];
      ConcatAppend(parts[1..], last);
    }
  }
}
