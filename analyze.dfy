/** The data extraction of `analysis/analyze.py`: the static RTT estimate of a
    capture, the series of ACK timestamps, bytes ACKed and cumulative bytes
    ACKed for TCP and for QUIC, and the RTT-normalised series built from both. */
module Analyze {
  import opened Outcomes
  import opened Series
  import opened Packets
  import opened FlightTable

  /** A capture and the transport it holds (`ProtocolType` in the source). */
  datatype Capture = TcpCapture(segments: seq<TcpSegment>) | QuicCapture(datagrams: seq<Datagram>)

  /** ACK timestamps in ms, bytes ACKed by each ACK, cumulative bytes ACKed. */
  datatype CumAckTime = CumAckTime(times: seq<real>, acks: seq<int>, cumAcks: seq<int>)

  /** `CumAckTime` with the timestamps divided by the RTT estimate. */
  datatype CumAckRtt = CumAckRtt(times: seq<real>, acks: seq<int>, cumAcks: seq<int>, rtts: seq<real>)

  /** Every timestamp divided by `rtt`; dividing by a zero RTT raises. */
  function NormalizeByRtt(times: seq<real>, rtt: real): (r: Outcome<seq<real>>)
    ensures r.Raised? <==> rtt == 0.0 && |times| > 0
    ensures r.Raised? ==> r.error == ZeroDivisionError
    ensures r.Ok? ==> |r.value| == |times|
    ensures r.Ok? ==> forall i :: 0 <= i < |times| ==> r.value[i] * rtt == times[i]
  {
    if rtt != 0.0 then Ok(DividedBy(times, rtt))
    else if times == [] then Ok([])
    else Raised(ZeroDivisionError)
  }

  // ---------------------------------------------------------------------------
  // Static RTT estimates

  /** The TCP estimate: the stack's initial RTT, from the first segment that carries one. */
  method GetRttStaticTcp(d: seq<TcpSegment>) returns (rtt: Option<real>)
    ensures rtt == TcpRtt(d)
  {
    if |d| == 0 {
      return None;
    }
    rtt := None;
    var i := 0;
    while i < |d|
      invariant 0 <= i <= |d|
      invariant rtt.None?
      invariant forall j :: 0 <= j < i ==> d[j].initialRtt.None?
    {
      if d[i].initialRtt.Some? {
        rtt := Some(d[i].initialRtt.value * 1000.0);
        break;
      }
      i := i + 1;
    }
  }

  /** A datagram sent by the server. */
  predicate FromServer(p: Datagram)
  {
    p.udp.Some? && p.udp.value.srcPort == ServerPort
  }

  /** The index of the first datagram sent by the server, if any. */
  function FirstFromServer(d: seq<Datagram>): (r: Option<nat>)
    ensures r.None? <==> forall i :: 0 <= i < |d| ==> !FromServer(d[i])
    ensures r.Some? ==> r.value < |d| && FromServer(d[r.value])
    ensures r.Some? ==> forall i :: 0 <= i < r.value ==> !FromServer(d[i])
  {
    if d == [] then None
    else if FromServer(d[0]) then Some(0)
    else
      match FirstFromServer(d[1..])
      case None => None
      case Some(k) => Some(k + 1)
  }

  /** The QUIC estimate, in ms: the capture time of the first server datagram
      (Client Hello to Server Hello, the capture starting at the Client Hello). */
  function QuicRtt(d: seq<Datagram>): Option<real>
  {
    match FirstFromServer(d)
    case None => None
    case Some(k) => Some(1000.0 * d[k].udp.value.time)
  }

  method GetRttStaticQuic(d: seq<Datagram>) returns (rtt: Option<real>)
    ensures rtt == QuicRtt(d)
  {
    if |d| == 0 {
      return None;
    }
    rtt := None;
    var i := 0;
    while i < |d|
      invariant 0 <= i <= |d|
      invariant rtt.None?
      invariant forall j :: 0 <= j < i ==> !FromServer(d[j])
    {
      if d[i].udp.None? {
        i := i + 1;
        continue;
      }
      var time := d[i].udp.value.time * 1000.0;
      var isIncoming := d[i].udp.value.srcPort == ServerPort;
      if isIncoming {
        rtt := Some(time);
        break;
      }
      i := i + 1;
    }
  }

  // ---------------------------------------------------------------------------
  // TCP: one entry per client ACK segment

  /** `c` holds one entry per segment of `sent`: its time in ms, its
      acknowledgment number, and the running sum of those numbers. */
  predicate Describes(c: CumAckTime, sent: seq<TcpSegment>)
  {
    |c.times| == |sent| && |c.acks| == |sent| &&
    (forall i :: 0 <= i < |sent| ==> c.times[i] == 1000.0 * sent[i].time && c.acks[i] == sent[i].ackNum) &&
    IsRunningSum(c.acks, c.cumAcks)
  }

  /** Only one series describes a given list of segments. */
  lemma DescribesUnique(c: CumAckTime, c': CumAckTime, sent: seq<TcpSegment>)
    requires Describes(c, sent) && Describes(c', sent)
    ensures c == c'
  {
    RunningSumUnique(c.acks, c.cumAcks);
    RunningSumUnique(c'.acks, c'.cumAcks);
  }

  /** The series of the client ACK segments of a TCP capture. */
  function TcpCumAcks(d: seq<TcpSegment>): (c: CumAckTime)
    ensures Describes(c, ClientAcks(d))
  {
    var sent := ClientAcks(d);
    var acks := seq(|sent|, i requires 0 <= i < |sent| => sent[i].ackNum);
    CumAckTime(seq(|sent|, i requires 0 <= i < |sent| => 1000.0 * sent[i].time), acks, RunningSum(acks))
  }

  method GetCumackTcp(d: seq<TcpSegment>) returns (r: Option<CumAckTime>)
    ensures r.None? <==> |d| == 0
    ensures r.Some? ==> Describes(r.value, ClientAcks(d))
    ensures r.Some? ==> r.value == TcpCumAcks(d)
  {
    if |d| == 0 {
      return None;
    }
    var acks: seq<int> := [];
    var cumAcks: seq<int> := [];
    var times: seq<real> := [];
    var i := 0;
    while i < |d|
      invariant 0 <= i <= |d|
      invariant Describes(CumAckTime(times, acks, cumAcks), ClientAcks(d[..i]))
    {
      assert d[..i + 1][..i] == d[..i];
      var p := d[i];
      var isIncoming := p.srcPort == ServerPort;
      var isOutgoing := !isIncoming;
      if isOutgoing && !p.fin {
        var time := p.time * 1000.0;
        var ack := p.ackNum;
        times := times + [time];
        ExtendRunningSum(acks, cumAcks, ack);
        var next := NextCumulative(cumAcks, ack);
        acks := acks + [ack];
        cumAcks := cumAcks + [next];
      }
      i := i + 1;
    }
    assert d[..|d|] == d;
    r := Some(CumAckTime(times, acks, cumAcks));
    DescribesUnique(r.value, TcpCumAcks(d), ClientAcks(d));
  }

  // ---------------------------------------------------------------------------
  // QUIC: bytes in flight per packet number, drained by the client's ACK frames

  /** The collector's state: bytes in flight and timestamp per packet number,
      and the series built so far. */
  datatype Ledger = Ledger(inFlight: Table, times: seq<real>, acks: seq<int>, cumAcks: seq<int>)

  const EmptyLedger: Ledger := Ledger(map[], [], [], [])

  /** One time and one cumulative entry per ACK entry. */
  predicate Aligned(l: Ledger)
  {
    |l.times| == |l.acks| == |l.cumAcks|
  }

  /** The table after one frame, and the bytes it ACKs: an ACK frame
      acknowledges packet numbers largest - firstRange through largest, whose
      entries are counted and deleted; any other frame changes nothing. */
  function AckOne(m: Table, f: Frame): (Table, nat)
  {
    match f
    case AckFrame(largest, firstRange) => AckRange(m, largest - firstRange, largest + 1)
    case OtherFrame => (m, 0)
  }

  /** The packet numbers [lo, hi) acknowledged: their entries counted and deleted. */
  function AckRange(m: Table, lo: int, hi: int): (Table, nat)
  {
    (DeleteSpan(m, lo, hi), CoveredBytes(m, lo, hi))
  }

  /** The frames of one client packet, in order. */
  function AckAll(m: Table, frames: seq<Frame>): (Table, nat)
  {
    if frames == [] then (m, 0)
    else
      var (m', acked) := AckAll(m, frames[..|frames| - 1]);
      var (m'', more) := AckOne(m', frames[|frames| - 1]);
      (m'', acked + more)
  }

  /** One QUIC packet. A server packet with a packet number and a length adds
      its length to its packet number's entry and stamps it; a client packet
      with frames appends the bytes its ACK frames acknowledge (possibly 0). */
  function RecordPacket(l: Ledger, q: QuicPacket, time: real, incoming: bool): (r: Ledger)
    ensures Aligned(l) ==> Aligned(r)
    ensures |l.acks| <= |r.acks| <= |l.acks| + 1
  {
    if incoming then
      if q.pktNum.None? || q.pktLen.None? then l
      else l.(inFlight := AddBytes(l.inFlight, q.pktNum.value, q.pktLen.value, time))
    else if q.frames.None? then l
    else
      var (m, acked) := AckAll(l.inFlight, q.frames.value);
      Ledger(m, l.times + [time], l.acks + [acked], l.cumAcks + [NextCumulative(l.cumAcks, acked)])
  }

  function RecordPackets(l: Ledger, qs: seq<QuicPacket>, time: real, incoming: bool): (r: Ledger)
    ensures Aligned(l) ==> Aligned(r)
    ensures |l.acks| <= |r.acks| <= |l.acks| + |qs|
  {
    if qs == [] then l
    else RecordPacket(RecordPackets(l, qs[..|qs| - 1], time, incoming), qs[|qs| - 1], time, incoming)
  }

  /** One datagram: skipped unless it has a UDP layer and QUIC packets. */
  function RecordDatagram(l: Ledger, p: Datagram): (r: Ledger)
    ensures Aligned(l) ==> Aligned(r)
  {
    if p.udp.None? || p.quic.None? then l
    else RecordPackets(l, p.quic.value, 1000.0 * p.udp.value.time, p.udp.value.srcPort == ServerPort)
  }

  function LedgerOf(d: seq<Datagram>): (r: Ledger)
    ensures Aligned(r)
  {
    if d == [] then EmptyLedger
    else RecordDatagram(LedgerOf(d[..|d| - 1]), d[|d| - 1])
  }

  /** The QUIC series of a capture. */
  function QuicCumAcks(d: seq<Datagram>): (r: CumAckTime)
    ensures |r.times| == |r.acks| == |r.cumAcks|
  {
    var l := LedgerOf(d);
    CumAckTime(l.times, l.acks, l.cumAcks)
  }

  /** Bytes the server sends in packets the collector records. */
  function PacketReceived(q: QuicPacket): nat
  {
    if q.pktNum.Some? && q.pktLen.Some? then q.pktLen.value else 0
  }

  function PacketsReceived(qs: seq<QuicPacket>): nat
  {
    if qs == [] then 0 else PacketsReceived(qs[..|qs| - 1]) + PacketReceived(qs[|qs| - 1])
  }

  function DatagramReceived(p: Datagram): nat
  {
    if p.udp.None? || p.quic.None? || p.udp.value.srcPort != ServerPort then 0
    else PacketsReceived(p.quic.value)
  }

  function Received(d: seq<Datagram>): nat
  {
    if d == [] then 0 else Received(d[..|d| - 1]) + DatagramReceived(d[|d| - 1])
  }

  /** The bookkeeping invariant: one time per ACK entry, cumulative entries
      are running sums of non-negative ACK entries, and every byte received
      is either ACKed exactly once or still in flight. */
  ghost predicate Balanced(l: Ledger, received: int)
  {
    |l.times| == |l.acks| &&
    (forall i :: 0 <= i < |l.acks| ==> l.acks[i] >= 0) &&
    IsRunningSum(l.acks, l.cumAcks) &&
    Sum(l.acks) + Outstanding(l.inFlight) == received
  }

  /** The bytes one frame ACKs are exactly the bytes it takes out of the table. */
  lemma AckOneConserves(m: Table, f: Frame)
    ensures AckOne(m, f).1 + Outstanding(AckOne(m, f).0) == Outstanding(m)
  {
    if f.AckFrame? {
      AckFrameConserves(m, f);
    } else {
      assert AckOne(m, f) == (m, 0);
    }
  }

  /** The ACK-frame case of `AckOneConserves`. */
  lemma AckFrameConserves(m: Table, f: Frame)
    requires f.AckFrame?
    ensures AckOne(m, f).1 + Outstanding(AckOne(m, f).0) == Outstanding(m)
  {
    var lo, hi := f.largest - f.firstRange, f.largest + 1;
    assert AckOne(m, f) == AckRange(m, lo, hi);
    AckRangeConserves(m, lo, hi);
  }

  /** An ACK frame's range [lo, hi) takes out of the table what it reports ACKed. */
  lemma AckRangeConserves(m: Table, lo: int, hi: int)
    ensures AckRange(m, lo, hi).1 + Outstanding(AckRange(m, lo, hi).0) == Outstanding(m)
  {
    DeleteSpanConserves(m, lo, hi);
  }

  /** The same for all the frames of a packet. */
  lemma {:induction false} AckAllConserves(m: Table, frames: seq<Frame>)
    ensures AckAll(m, frames).1 + Outstanding(AckAll(m, frames).0) == Outstanding(m)
  {
    if frames != [] {
      var init := frames[..|frames| - 1];
      AckAllConserves(m, init);
      AckOneConserves(AckAll(m, init).0, frames[|frames| - 1]);
    }
  }

  lemma RecordPacketBalanced(l: Ledger, q: QuicPacket, time: real, incoming: bool, received: int)
    requires Balanced(l, received)
    ensures Balanced(RecordPacket(l, q, time, incoming), received + (if incoming then PacketReceived(q) else 0))
  {
    if incoming {
      ServerPacketBalanced(l, q, time, received);
    } else {
      ClientPacketBalanced(l, q, time, received);
    }
  }

  /** A server packet adds its recorded length to the bytes in flight. */
  lemma ServerPacketBalanced(l: Ledger, q: QuicPacket, time: real, received: int)
    requires Balanced(l, received)
    ensures Balanced(RecordPacket(l, q, time, true), received + PacketReceived(q))
  {
    if q.pktNum.Some? && q.pktLen.Some? {
      var l' := l.(inFlight := AddBytes(l.inFlight, q.pktNum.value, q.pktLen.value, time));
      assert RecordPacket(l, q, time, true) == l';
      AddBytesConserves(l.inFlight, q.pktNum.value, q.pktLen.value, time);
    } else {
      assert RecordPacket(l, q, time, true) == l;
    }
  }

  /** A client packet moves the bytes its ACK frames acknowledge from the
      table to the ACK column. */
  lemma ClientPacketBalanced(l: Ledger, q: QuicPacket, time: real, received: int)
    requires Balanced(l, received)
    ensures Balanced(RecordPacket(l, q, time, false), received)
  {
    if q.frames.Some? {
      var (m, acked) := AckAll(l.inFlight, q.frames.value);
      var l' := Ledger(m, l.times + [time], l.acks + [acked], l.cumAcks + [NextCumulative(l.cumAcks, acked)]);
      assert RecordPacket(l, q, time, false) == l';
      AckAllConserves(l.inFlight, q.frames.value);
      ExtendRunningSum(l.acks, l.cumAcks, acked);
      assert l'.acks[..|l.acks|] == l.acks;
    } else {
      assert RecordPacket(l, q, time, false) == l;
    }
  }

  lemma {:induction false} RecordPacketsBalanced(l: Ledger, qs: seq<QuicPacket>, time: real, incoming: bool, received: int)
    requires Balanced(l, received)
    ensures Balanced(RecordPackets(l, qs, time, incoming), received + (if incoming then PacketsReceived(qs) else 0))
  {
    if qs != [] {
      var init := qs[..|qs| - 1];
      RecordPacketsBalanced(l, init, time, incoming, received);
      RecordPacketBalanced(RecordPackets(l, init, time, incoming), qs[|qs| - 1], time, incoming,
        received + (if incoming then PacketsReceived(init) else 0));
    }
  }

  /** Conservation over a whole capture: the bytes ACKed plus the bytes still
      in flight are the bytes the server sent, so no byte is ACKed twice. */
  lemma {:induction false} LedgerBalanced(d: seq<Datagram>)
    ensures Balanced(LedgerOf(d), Received(d))
  {
    if d == [] {
      assert Outstanding(map[]) == 0;
    } else {
      var init := d[..|d| - 1];
      var p := d[|d| - 1];
      LedgerBalanced(init);
      if p.udp.Some? && p.quic.Some? {
        RecordPacketsBalanced(LedgerOf(init), p.quic.value, 1000.0 * p.udp.value.time,
          p.udp.value.srcPort == ServerPort, Received(init));
      }
    }
  }

  /** What the QUIC series promises: aligned columns, cumulative bytes that
      never decrease and never exceed the bytes the server sent. */
  lemma QuicCumAcksSound(d: seq<Datagram>)
    ensures var c := QuicCumAcks(d);
      |c.times| == |c.acks| && IsRunningSum(c.acks, c.cumAcks) &&
      (forall i, j :: 0 <= i <= j < |c.cumAcks| ==> c.cumAcks[i] <= c.cumAcks[j]) &&
      Sum(c.acks) <= Received(d)
  {
    var l := LedgerOf(d);
    LedgerBalanced(d);
    RunningSumMonotone(l.acks, l.cumAcks);
  }

  /** The first ACK range of one ACK frame: each acknowledged packet number
      still in the table is counted and deleted, in ascending order. */
  method AckFirstRange(m: Table, largest: int, firstRange: int) returns (m': Table, acked: nat)
    ensures (m', acked) == AckOne(m, AckFrame(largest, firstRange))
  {
    var lo, hi := largest - firstRange, largest + 1;
    m', acked := m, 0;
    var n := lo;
    while n < hi
      invariant lo <= n <= (if lo <= hi then hi else lo)
      invariant m' == DeleteSpan(m, lo, n)
      invariant acked == CoveredBytes(m, lo, n)
    {
      DeleteSpanTop(m, lo, n + 1);
      CoveredBytesTop(m, lo, n);
      if n in m' {
        acked := acked + m'[n].bytes;
        m' := m' - {n};
      }
      n := n + 1;
    }
    if hi < lo {
      DeleteSpanNothing(m, lo, lo);
      DeleteSpanNothing(m, lo, hi);
    }
  }

  /** The frames of one client packet. */
  method AckFrames(m: Table, frames: seq<Frame>) returns (m': Table, acked: nat)
    ensures (m', acked) == AckAll(m, frames)
  {
    m', acked := m, 0;
    var k := 0;
    while k < |frames|
      invariant 0 <= k <= |frames|
      invariant (m', acked) == AckAll(m, frames[..k])
    {
      assert frames[..k + 1][..k] == frames[..k];
      match frames[k] {
        case AckFrame(largest, firstRange) =>
          var more;
          m', more := AckFirstRange(m', largest, firstRange);
          acked := acked + more;
        case OtherFrame =>
      }
      k := k + 1;
    }
    assert frames[..|frames|] == frames;
  }

  /** The QUIC packets of one datagram. */
  method RecordQuics(l: Ledger, qs: seq<QuicPacket>, time: real, incoming: bool) returns (l': Ledger)
    ensures l' == RecordPackets(l, qs, time, incoming)
  {
    l' := l;
    var j := 0;
    while j < |qs|
      invariant 0 <= j <= |qs|
      invariant l' == RecordPackets(l, qs[..j], time, incoming)
    {
      assert qs[..j + 1][..j] == qs[..j];
      var q := qs[j];
      if incoming {
        if q.pktNum.Some? && q.pktLen.Some? {
          var pktNum, pktLen := q.pktNum.value, q.pktLen.value;
          var e := if pktNum in l'.inFlight then l'.inFlight[pktNum] else Empty;
          l' := l'.(inFlight := l'.inFlight[pktNum := Entry(e.bytes + pktLen, time)]);
        }
      } else if q.frames.Some? {
        var m, acked := AckFrames(l'.inFlight, q.frames.value);
        l' := Ledger(m, l'.times + [time], l'.acks + [acked], l'.cumAcks + [NextCumulative(l'.cumAcks, acked)]);
      }
      j := j + 1;
    }
    assert qs[..|qs|] == qs;
  }

  /** The QUIC series of a capture, with the QUIC layer of each datagram read
      before it is tested (see "Findings" in the README for the code as written). */
  method GetCumackQuic(d: seq<Datagram>) returns (r: Option<CumAckTime>)
    ensures r.None? <==> |d| == 0
    ensures r.Some? ==> r.value == QuicCumAcks(d)
  {
    if |d| == 0 {
      return None;
    }
    var l := EmptyLedger;
    var i := 0;
    while i < |d|
      invariant 0 <= i <= |d|
      invariant l == LedgerOf(d[..i])
    {
      assert d[..i + 1][..i] == d[..i];
      var p := d[i];
      if p.udp.Some? && p.quic.Some? {
        var time := p.udp.value.time * 1000.0;
        var isIncoming := p.udp.value.srcPort == ServerPort;
        l := RecordQuics(l, p.quic.value, time, isIncoming);
      }
      i := i + 1;
    }
    assert d[..|d|] == d;
    r := Some(CumAckTime(l.times, l.acks, l.cumAcks));
  }

  /** `get_cumack_quic` as written: `quics` is tested before it is first
      assigned, so any datagram with a UDP layer raises. */
  function CumackQuicAsWritten(d: seq<Datagram>): (r: Outcome<Option<CumAckTime>>)
    ensures r.Raised? ==> r.error == UnboundLocalError
    ensures r.Ok? && r.value.Some? ==> r.value.value.times == []
  {
    if |d| == 0 then Ok(None)
    else if exists i :: 0 <= i < |d| && d[i].udp.Some? then Raised(UnboundLocalError)
    else Ok(Some(CumAckTime([], [], [])))
  }

  /** A server packet of 1200 bytes and a client ACK of it: the code as
      written raises, the intended collector reports the 1200 bytes ACKed. */
  lemma CumackQuicAsWrittenRaises()
    ensures var d := [
        Datagram(Some(UdpLayer(ServerPort, 0.020)), Some([QuicPacket(Some(0), Some(1200), None)])),
        Datagram(Some(UdpLayer(50000, 0.021)), Some([QuicPacket(Some(0), Some(40), Some([AckFrame(0, 0)]))]))];
      CumackQuicAsWritten(d) == Raised(UnboundLocalError) && QuicCumAcks(d).acks == [1200]
  {
    var p0 := Datagram(Some(UdpLayer(ServerPort, 0.020)), Some([QuicPacket(Some(0), Some(1200), None)]));
    var p1 := Datagram(Some(UdpLayer(50000, 0.021)), Some([QuicPacket(Some(0), Some(40), Some([AckFrame(0, 0)]))]));
    var d := [p0, p1];
    assert d[0].udp.Some?;
    assert d[..1] == [p0] && [p0][..0] == [];
    var q0 := QuicPacket(Some(0), Some(1200), None);
    assert [q0][..0] == [];
    var l0 := RecordDatagram(EmptyLedger, p0);
    assert l0 == RecordPacket(EmptyLedger, q0, 1000.0 * 0.020, true);
    assert l0.inFlight == map[0 := Entry(1200, 20.0)];
    assert LedgerOf(d[..1]) == l0;
    var frames := [AckFrame(0, 0)];
    assert frames[..0] == [];
    assert CoveredBytes(l0.inFlight, 0, 1) == 1200;
    assert AckAll(l0.inFlight, frames).1 == 1200;
    var q1 := QuicPacket(Some(0), Some(40), Some(frames));
    assert [q1][..0] == [];
    assert LedgerOf(d) == RecordPacket(l0, q1, 1000.0 * 0.021, false);
  }

  // ---------------------------------------------------------------------------
  // The exported entry point

  function CaptureRtt(c: Capture): Option<real>
  {
    match c
    case TcpCapture(d) => TcpRtt(d)
    case QuicCapture(d) => QuicRtt(d)
  }

  function CaptureCumAcks(c: Capture): CumAckTime
  {
    match c
    case TcpCapture(d) => TcpCumAcks(d)
    case QuicCapture(d) => QuicCumAcks(d)
  }

  /** `get_cumack_rtt`: no result without an RTT estimate; otherwise the
      capture's series with its times divided by the estimate, which raises
      when the estimate is zero and there is a time to divide. */
  method GetCumackRtt(c: Capture) returns (r: Outcome<Option<CumAckRtt>>)
    ensures CaptureRtt(c).None? ==> r == Ok(None)
    ensures CaptureRtt(c).Some? ==>
      var s := CaptureCumAcks(c);
      match NormalizeByRtt(s.times, CaptureRtt(c).value)
      case Raised(e) => r == Raised(e)
      case Ok(rtts) => r == Ok(Some(CumAckRtt(s.times, s.acks, s.cumAcks, rtts)))
    ensures r.Ok? && r.value.Some? ==>
      var v := r.value.value;
      |v.times| == |v.acks| == |v.cumAcks| == |v.rtts|
  {
    var rtt: Option<real>;
    match c {
      case TcpCapture(d) => rtt := GetRttStaticTcp(d);
      case QuicCapture(d) => rtt := GetRttStaticQuic(d);
    }
    if rtt.None? {
      return Ok(None);
    }
    var cumAckTimes: Option<CumAckTime>;
    match c {
      case TcpCapture(d) => cumAckTimes := GetCumackTcp(d);
      case QuicCapture(d) => cumAckTimes := GetCumackQuic(d);
    }
    if cumAckTimes.None? {
      return Ok(None);
    }
    var times, acks, cumAcks := cumAckTimes.value.times, cumAckTimes.value.acks, cumAckTimes.value.cumAcks;
    if c.QuicCapture? {
      QuicCumAcksSound(c.datagrams);
    }
    match NormalizeByRtt(times, rtt.value) {
      case Raised(e) => return Raised(e);
      case Ok(rtts) => return Ok(Some(CumAckRtt(times, acks, cumAcks, rtts)));
    }
  }
}
