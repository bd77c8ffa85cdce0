/** Captured packets, as the fields of the capture's JSON dissection that the
    analysis reads. Timestamps are the capture-relative times in seconds; ports,
    sequence and acknowledgment numbers are already parsed to integers. */
module Packets {
  import opened Outcomes

  /** The server port: a packet from this port is incoming, any other outgoing. */
  const ServerPort: nat := 443

  /** The `tcp` layer of one captured packet. */
  datatype TcpSegment = TcpSegment(
    srcPort: nat,              // tcp.srcport
    fin: bool,                 // tcp.flags_tree / tcp.flags.fin == '1'
    time: real,                // Timestamps / tcp.time_relative, in seconds
    seqNum: int,               // tcp.seq
    ackNum: int,               // tcp.ack
    initialRtt: Option<real>)  // tcp.analysis / tcp.analysis.initial_rtt, in seconds, when present

  /** The `udp` layer of one captured packet. */
  datatype UdpLayer = UdpLayer(
    srcPort: nat,  // udp.srcport
    time: real)    // Timestamps / udp.time_relative, in seconds

  /** One frame of a QUIC packet: an ACK frame (frame type 0x02) with the
      largest acknowledged packet number and the first ACK range, or any other
      frame. Only the first ACK range is read (section 19.3 of RFC 9000). */
  datatype Frame = AckFrame(largest: int, firstRange: int) | OtherFrame

  /** One QUIC packet of a datagram. `pktNum` is quic.packet_number, read from
      the long header or from `quic.short`; `pktLen` is quic.packet_length;
      `frames` is quic.frame. Each may be missing. */
  datatype QuicPacket = QuicPacket(pktNum: Option<int>, pktLen: Option<nat>, frames: Option<seq<Frame>>)

  /** One captured packet of a QUIC trace: its `udp` layer and the QUIC packets
      it carries (a single `quic` dictionary is already a one-element list). */
  datatype Datagram = Datagram(udp: Option<UdpLayer>, quic: Option<seq<QuicPacket>>)

  /** A segment that the client sends to the server (not from port 443) and that is not a FIN. */
  predicate IsClientAck(p: TcpSegment)
  {
    p.srcPort != ServerPort && !p.fin
  }

  /** The client ACK segments of `d`, in capture order. */
  function ClientAcks(d: seq<TcpSegment>): seq<TcpSegment>
  {
    if d == [] then []
    else ClientAcks(d[..|d| - 1]) + (if IsClientAck(d[|d| - 1]) then [d[|d| - 1]] else [])
  }

  /** `ClientAcks` keeps exactly the client ACK segments: each kept segment is
      one, and each one in `d` is kept. */
  lemma {:induction false} ClientAcksSelects(d: seq<TcpSegment>)
    ensures forall p :: p in ClientAcks(d) ==> p in d && IsClientAck(p)
    ensures forall p :: p in d && IsClientAck(p) ==> p in ClientAcks(d)
    ensures |ClientAcks(d)| <= |d|
  {
    if d != [] {
      ClientAcksSelects(d[..|d| - 1]);
      assert d == d[..|d| - 1] + [d[|d| - 1]];
    }
  }

  /** Filtering a concatenation filters each part. */
  lemma {:induction false} ClientAcksAppend(a: seq<TcpSegment>, b: seq<TcpSegment>)
    ensures ClientAcks(a + b) == ClientAcks(a) + ClientAcks(b)
    decreases |b|
  {
    if b == [] {
      assert a + b == a;
    } else {
      var c := b[..|b| - 1];
      assert (a + b)[..|a + b| - 1] == a + c;
      ClientAcksAppend(a, c);
    }
  }

  /** The index of the first segment that carries an initial RTT estimate, if any. */
  function FirstRttIndex(d: seq<TcpSegment>): (r: Option<nat>)
    ensures r.None? <==> forall i :: 0 <= i < |d| ==> d[i].initialRtt.None?
    ensures r.Some? ==> r.value < |d| && d[r.value].initialRtt.Some?
    ensures r.Some? ==> forall i :: 0 <= i < r.value ==> d[i].initialRtt.None?
  {
    if d == [] then None
    else if d[0].initialRtt.Some? then Some(0)
    else
      match FirstRttIndex(d[1..])
      case None => None
      case Some(k) => Some(k + 1)
  }

  /** The RTT estimate of a TCP capture, in ms: the initial RTT of the first
      segment that carries one. */
  function TcpRtt(d: seq<TcpSegment>): Option<real>
  {
    match FirstRttIndex(d)
    case None => None
    case Some(k) => Some(1000.0 * d[k].initialRtt.value)
  }
}
